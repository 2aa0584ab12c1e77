/** The result loop of `do_http_health_check`: probe answers written into the shared configuration. */
module Probes {
  import opened Common
  import opened Liveness
  import opened Http
  import opened Routers

  /** How a spawned probe ends: a response with a status, a failed request, or a task that broke. */
  datatype Reply = Status(code: nat) | RequestFailed
  datatype Joined = Finished(endpoint: string, reply: Reply) | JoinError

  /** 200 is up and a failed request is down; any other status says nothing. */
  function Verdict(reply: Reply): Health {
    match reply
    case Status(code) => if code == 200 then Up else Unknown
    case RequestFailed => Down
  }

  predicate Conclusive(result: Joined) {
    result.Finished? && Verdict(result.reply) != Unknown
  }

  function ApplyOne(r: Router, result: Joined): Router {
    if Conclusive(result) then SetHealth(r, result.endpoint, Verdict(result.reply)) else r
  }

  function ApplyAll(r: Router, results: seq<Joined>): Router {
    if results == [] then r else ApplyOne(ApplyAll(r, results[..|results| - 1]), results[|results| - 1])
  }

  // ---------------------------------------------------------------- the shared configuration

  datatype Entry = Entry(routeId: string, router: Router)

  /** The services in the order iteration yields them, each with its routes. */
  type Services = seq<seq<Entry>>

  /** The first route with the id from `(i, j)` on, in that order. */
  function Find(services: Services, routeId: string, i: nat, j: nat): (at: Option<(nat, nat)>)
    requires i <= |services| && (i < |services| ==> j <= |services[i]|)
    ensures at.Some? ==> at.value.0 < |services| && at.value.1 < |services[at.value.0]|
                         && services[at.value.0][at.value.1].routeId == routeId
    decreases |services| - i, if i < |services| then |services[i]| - j else 0
  {
    if i == |services| then None
    else if j == |services[i]| then Find(services, routeId, i + 1, 0)
    else if services[i][j].routeId == routeId then Some((i, j))
    else Find(services, routeId, i, j + 1)
  }

  function WithRouter(services: Services, at: (nat, nat), r: Router): Services
    requires at.0 < |services| && at.1 < |services[at.0]|
  {
    services[at.0 := services[at.0][at.1 := services[at.0][at.1].(router := r)]]
  }

  /** What one joined result does to the configuration: nothing if the route is gone. */
  function Handle(services: Services, routeId: string, result: Joined): Services {
    match Find(services, routeId, 0, 0)
    case None => services
    case Some(at) => WithRouter(services, at, ApplyOne(services[at.0][at.1].router, result))
  }

  function HandleAll(services: Services, routeId: string, results: seq<Joined>): Services {
    if results == [] then services
    else Handle(HandleAll(services, routeId, results[..|results| - 1]), routeId, results[|results| - 1])
  }

  class SharedConfig {
    var services: Services

    constructor (services: Services)
      ensures this.services == services
    {
      this.services := services;
    }

    method FindRoute(routeId: string) returns (at: Option<(nat, nat)>)
      ensures at == Find(services, routeId, 0, 0)
    {
      for i := 0 to |services|
        invariant Find(services, routeId, 0, 0) == Find(services, routeId, i, 0)
      {
        for j := 0 to |services[i]|
          invariant Find(services, routeId, 0, 0) == Find(services, routeId, i, j)
        {
          if services[i][j].routeId == routeId {
            return Some((i, j));
          }
        }
      }
      at := None;
    }

    /** The join loop: results come in whatever order the probes finish. */
    method ApplyResults(routeId: string, results: seq<Joined>)
      modifies this
      ensures services == HandleAll(old(services), routeId, results)
    {
      for n := 0 to |results|
        invariant services == HandleAll(old(services), routeId, results[..n])
      {
        assert results[..n + 1][..n] == results[..n];
        var result := results[n];
        if result.JoinError? {
          HandleJoinError(services, routeId);
          continue;
        }
        var at := FindRoute(routeId);
        if at == None {
          continue;
        }
        var (i, j) := at.value;
        var router := services[i][j].router;
        match result.reply {
          case Status(code) =>
            if code == 200 {
              router := SetHealth(router, result.endpoint, Up);
            }
          case RequestFailed =>
            router := SetHealth(router, result.endpoint, Down);
        }
        services := services[i := services[i][j := services[i][j].(router := router)]];
      }
      assert results[..|results|] == results;
    }
  }

  lemma HandleJoinError(services: Services, routeId: string)
    ensures Handle(services, routeId, JoinError) == services
  {
    var at := Find(services, routeId, 0, 0);
    if at.Some? {
      var (i, j) := at.value;
      assert services[i][j := services[i][j].(router := services[i][j].router)] == services[i];
    }
  }

  /** Two configurations that differ in routers only. */
  predicate SameIds(a: Services, b: Services) {
    && |a| == |b|
    && forall i :: 0 <= i < |a| ==>
         |a[i]| == |b[i]| && forall j :: 0 <= j < |a[i]| ==> a[i][j].routeId == b[i][j].routeId
  }

  lemma {:induction false} SameIdsSamePlace(a: Services, b: Services, routeId: string, i: nat, j: nat)
    requires SameIds(a, b)
    requires i <= |a| && (i < |a| ==> j <= |a[i]|)
    ensures Find(a, routeId, i, j) == Find(b, routeId, i, j)
    decreases |a| - i, if i < |a| then |a[i]| - j else 0
  {
    if i < |a| {
      if j == |a[i]| {
        SameIdsSamePlace(a, b, routeId, i + 1, 0);
      } else if a[i][j].routeId != routeId {
        SameIdsSamePlace(a, b, routeId, i, j + 1);
      }
    }
  }

  /** Position `(i, j)` comes no later than `(a, b)`. */
  predicate NotAfter(i: int, j: int, a: int, b: int) {
    i < a || (i == a && j <= b)
  }

  /** The route found is the first with the id, service by service; none is found only if there is none. */
  lemma {:induction false} FindIsFirst(services: Services, routeId: string, i: nat, j: nat)
    requires i <= |services| && (i < |services| ==> j <= |services[i]|)
    ensures var at := Find(services, routeId, i, j);
            forall a, b :: 0 <= a < |services| && 0 <= b < |services[a]| && services[a][b].routeId == routeId ==>
              NotAfter(i, j, a, b) ==> at.Some? && NotAfter(at.value.0, at.value.1, a, b)
    decreases |services| - i, if i < |services| then |services[i]| - j else 0
  {
    if i < |services| {
      if j == |services[i]| {
        FindIsFirst(services, routeId, i + 1, 0);
      } else if services[i][j].routeId != routeId {
        FindIsFirst(services, routeId, i, j + 1);
      }
    }
  }

  /** A batch of results changes the router of the first route with the id, and nothing else anywhere. */
  lemma {:induction false} BatchChangesOneRouter(services: Services, routeId: string, results: seq<Joined>)
    ensures HandleAll(services, routeId, results) ==
              match Find(services, routeId, 0, 0)
              case None => services
              case Some(at) => WithRouter(services, at, ApplyAll(services[at.0][at.1].router, results))
  {
    var at := Find(services, routeId, 0, 0);
    if results == [] {
      if at.Some? {
        var (i, j) := at.value;
        assert services[i][j := services[i][j]] == services[i];
      }
    } else {
      var front := results[..|results| - 1];
      BatchChangesOneRouter(services, routeId, front);
      if at.Some? {
        var mid := HandleAll(services, routeId, front);
        SameIdsSamePlace(services, mid, routeId, 0, 0);
        var (i, j) := at.value;
        var r := ApplyAll(services[i][j].router, results);
        assert mid[i][j := mid[i][j].(router := r)] == services[i][j := services[i][j].(router := r)];
        assert HandleAll(services, routeId, results) == WithRouter(services, at.value, r);
      }
    }
  }

  /** The entry has the id and no earlier one has. */
  predicate IsFirst(services: Services, routeId: string, a: nat, b: nat)
    requires a < |services| && b < |services[a]|
  {
    && services[a][b].routeId == routeId
    && forall i, j :: 0 <= i < |services| && 0 <= j < |services[i]| && services[i][j].routeId == routeId ==>
         NotAfter(a, b, i, j)
  }

  /** Entry by entry: only the router of the first route with the id changes, to what the batch makes of it. */
  lemma BatchEntryByEntry(services: Services, routeId: string, results: seq<Joined>, a: nat, b: nat)
    requires a < |services| && b < |services[a]|
    ensures var after := HandleAll(services, routeId, results);
            && |after| == |services| && |after[a]| == |services[a]|
            && after[a][b] ==
                 if IsFirst(services, routeId, a, b)
                 then Entry(routeId, ApplyAll(services[a][b].router, results))
                 else services[a][b]
  {
    BatchChangesOneRouter(services, routeId, results);
    FindIsFirst(services, routeId, 0, 0);
  }

  // ---------------------------------------------------------------- results as a relabelling

  /** The conclusive verdict that came last for each endpoint. */
  function Verdicts(results: seq<Joined>): map<string, Health> {
    if results == [] then map[]
    else
      var front, last := Verdicts(results[..|results| - 1]), results[|results| - 1];
      if Conclusive(last) then front[last.endpoint := Verdict(last.reply)] else front
  }

  function Relabelled(b: BaseRoute, h: map<string, Health>): BaseRoute {
    if b.endpoint in h then b.(alive := h[b.endpoint]) else b
  }

  /** The same router with the health of the named endpoints replaced; index, weights, counters and order stay. */
  function Relabel(r: Router, h: map<string, Health>): Router {
    match r
    case StaticFile(_) => r
    case Poll(index, routes) => Poll(index, seq(|routes|, i requires 0 <= i < |routes| => Relabelled(routes[i], h)))
    case HeaderBased(rules) =>
      HeaderBased(seq(|rules|, i requires 0 <= i < |rules| => rules[i].(alive := Relabelled(rules[i].Base(), h).alive)))
    case Random(routes) => Random(seq(|routes|, i requires 0 <= i < |routes| => Relabelled(routes[i], h)))
    case WeightBased(items) =>
      WeightBased(seq(|items|, i requires 0 <= i < |items| => items[i].(alive := Relabelled(items[i].Base(), h).alive)))
  }

  lemma RelabelNothing(r: Router)
    ensures Relabel(r, map[]) == r
  {
    match r
    case StaticFile(_) =>
    case Poll(index, routes) => assert Relabel(r, map[]).polled == routes;
    case HeaderBased(rules) => assert Relabel(r, map[]).rules == rules;
    case Random(routes) => assert Relabel(r, map[]).targets == routes;
    case WeightBased(items) => assert Relabel(r, map[]).items == items;
  }

  lemma SetAfterRelabel(r: Router, h: map<string, Health>, endpoint: string, health: Health)
    ensures SetHealth(Relabel(r, h), endpoint, health) == Relabel(r, h[endpoint := health])
  {
    var a, b := SetHealth(Relabel(r, h), endpoint, health), Relabel(r, h[endpoint := health]);
    match r
    case StaticFile(_) =>
    case Poll(_, _) => assert a.polled == b.polled;
    case HeaderBased(_) => assert a.rules == b.rules;
    case Random(_) => assert a.targets == b.targets;
    case WeightBased(_) => assert a.items == b.items;
  }

  /**
   * LAST RESULT WINS. After any batch, each backend's health is the last conclusive verdict about its
   * endpoint, or what it was; positions, weights and counters are untouched.
   */
  lemma {:induction false} BatchIsRelabelling(r: Router, results: seq<Joined>)
    ensures ApplyAll(r, results) == Relabel(r, Verdicts(results))
  {
    hide Relabel, SetHealth;
    if results == [] {
      RelabelNothing(r);
    } else {
      var front, last := results[..|results| - 1], results[|results| - 1];
      BatchIsRelabelling(r, front);
      if Conclusive(last) {
        SetAfterRelabel(r, Verdicts(front), last.endpoint, Verdict(last.reply));
      }
    }
  }

  // ---------------------------------------------------------------- which replies count

  /** A 200 or a failed request about the endpoint; other statuses and broken tasks decide nothing. */
  predicate Decides(result: Joined, endpoint: string) {
    result == Finished(endpoint, Status(200)) || result == Finished(endpoint, RequestFailed)
  }

  /** Result `n` is the last to decide about the endpoint, and it is the given reply. */
  predicate LastReply(results: seq<Joined>, endpoint: string, reply: Reply, n: int) {
    && 0 <= n < |results| && results[n] == Finished(endpoint, reply) && Decides(results[n], endpoint)
    && forall m :: n < m < |results| ==> !Decides(results[m], endpoint)
  }

  lemma {:induction false} VerdictIsLastReply(results: seq<Joined>, endpoint: string)
    ensures (endpoint in Verdicts(results) && Verdicts(results)[endpoint] == Up) <==>
              exists n :: LastReply(results, endpoint, Status(200), n)
    ensures (endpoint in Verdicts(results) && Verdicts(results)[endpoint] == Down) <==>
              exists n :: LastReply(results, endpoint, RequestFailed, n)
    ensures endpoint in Verdicts(results) ==> Verdicts(results)[endpoint] != Unknown
  {
    if results != [] {
      var front, last := results[..|results| - 1], results[|results| - 1];
      VerdictIsLastReply(front, endpoint);
      assert forall m :: 0 <= m < |front| ==> front[m] == results[m];
      if Decides(last, endpoint) {
        assert LastReply(results, endpoint, last.reply, |front|);
        forall n, reply | LastReply(results, endpoint, reply, n) ensures n == |front| {
        }
      } else {
        forall n, reply ensures LastReply(front, endpoint, reply, n) <==> LastReply(results, endpoint, reply, n) {
        }
      }
    }
  }

  /** The backend's health after a batch, in terms of the replies: 200 is up, a failed request is down. */
  ghost predicate HealthAfter(results: seq<Joined>, before: BaseRoute, after: BaseRoute) {
    && after.endpoint == before.endpoint
    && (after.alive == Up <==>
          || (exists n :: LastReply(results, before.endpoint, Status(200), n))
          || (before.alive == Up && forall m :: 0 <= m < |results| ==> !Decides(results[m], before.endpoint)))
    && (after.alive == Down <==>
          || (exists n :: LastReply(results, before.endpoint, RequestFailed, n))
          || (before.alive == Down && forall m :: 0 <= m < |results| ==> !Decides(results[m], before.endpoint)))
  }

  lemma {:induction false} SomeLastReply(results: seq<Joined>, endpoint: string)
    requires exists m :: 0 <= m < |results| && Decides(results[m], endpoint)
    ensures exists n :: LastReply(results, endpoint, Status(200), n) || LastReply(results, endpoint, RequestFailed, n)
  {
    var front, last := results[..|results| - 1], results[|results| - 1];
    if Decides(last, endpoint) {
      assert LastReply(results, endpoint, last.reply, |front|);
    } else {
      var m :| 0 <= m < |results| && Decides(results[m], endpoint);
      assert front[m] == results[m];
      SomeLastReply(front, endpoint);
      var n :| LastReply(front, endpoint, Status(200), n) || LastReply(front, endpoint, RequestFailed, n);
      assert LastReply(results, endpoint, front[n].reply, n);
    }
  }

  /**
   * REPLIES DECIDE. After a batch joined in any order, a backend of the route is up if the last 200 or failed
   * request about its endpoint was a 200, down if it was a failed request, and as before if there was none.
   */
  lemma RepliesDecide(r: Router, results: seq<Joined>, i: nat)
    requires i < |r.Backends()|
    ensures |ApplyAll(r, results).Backends()| == |r.Backends()|
    ensures HealthAfter(results, r.Backends()[i], ApplyAll(r, results).Backends()[i])
  {
    hide Relabel, ApplyAll, Verdicts, Decides;
    var b := r.Backends()[i];
    BatchIsRelabelling(r, results);
    RelabelledHealth(r, Verdicts(results), i);
    VerdictIsLastReply(results, b.endpoint);
    if exists m :: 0 <= m < |results| && Decides(results[m], b.endpoint) {
      SomeLastReply(results, b.endpoint);
    }
  }

  /**
   * ONLY THE LIVE ONE IS PICKED. After a batch in which the backends at one endpoint answered 200 last and
   * every other one's request failed, a balancing router picks at that endpoint only, and a header router
   * elsewhere only by the first-rule fallback.
   */
  lemma OnlyTheLiveOneIsPicked(lib: Library, r: Router, results: seq<Joined>, up: nat, headers: Headers, rnd: nat)
    requires r.Valid() && up < |r.Backends()|
    requires exists n :: LastReply(results, r.Backends()[up].endpoint, Status(200), n)
    requires forall j :: 0 <= j < |r.Backends()| && r.Backends()[j].endpoint != r.Backends()[up].endpoint ==>
               exists n :: LastReply(results, r.Backends()[j].endpoint, RequestFailed, n)
    ensures ApplyAll(r, results).Valid()
    ensures var (_, pick) := Pick(lib, ApplyAll(r, results), headers, rnd);
            pick.Some? ==>
              && pick.value < |r.Backends()|
              && (r.Backends()[pick.value].endpoint == r.Backends()[up].endpoint || (r.HeaderBased? && pick.value == 0))
  {
    hide Relabel, ApplyAll, Decides, Pick, RuleAnswer, LastReply;
    var after := ApplyAll(r, results);
    BatchKeepsKind(r, results);
    var backends := r.Backends();
    forall j | 0 <= j < |backends|
      ensures |after.Backends()| == |backends| && after.Backends()[j].endpoint == backends[j].endpoint
      ensures after.Backends()[j].alive == if backends[j].endpoint == backends[up].endpoint then Up else Down
    {
      RepliesDecide(r, results, j);
    }
    if Pick(lib, after, headers, rnd).1.Some? {
      assert SomeUp(after) by { assert after.Backends()[up].alive == Up; }
      PickIsUp(lib, after, headers, rnd);
    }
  }

  lemma BatchKeepsKind(r: Router, results: seq<Joined>)
    ensures ApplyAll(r, results).HeaderBased? <==> r.HeaderBased?
    ensures r.Valid() ==> ApplyAll(r, results).Valid()
  {
    BatchIsRelabelling(r, results);
  }

  // ---------------------------------------------------------------- join order

  /** No two conclusive results about one endpoint disagree; distinct endpoints are a special case. */
  predicate Agree(results: seq<Joined>, endpoint: string) {
    forall a, b ::
      a in results && b in results && Conclusive(a) && Conclusive(b) && a.endpoint == endpoint == b.endpoint ==>
      Verdict(a.reply) == Verdict(b.reply)
  }

  lemma {:induction false} VerdictOf(results: seq<Joined>, endpoint: string)
    ensures endpoint in Verdicts(results) <==> exists a :: a in results && Conclusive(a) && a.endpoint == endpoint
    ensures endpoint in Verdicts(results) ==>
              exists a :: a in results && Conclusive(a) && a.endpoint == endpoint
                && Verdict(a.reply) == Verdicts(results)[endpoint]
  {
    if results != [] {
      var front, last := results[..|results| - 1], results[|results| - 1];
      VerdictOf(front, endpoint);
      assert forall a :: a in results <==> a in front || a == last;
    }
  }

  lemma AgreeingVerdicts(a: seq<Joined>, b: seq<Joined>, endpoint: string)
    requires multiset(a) == multiset(b) && Agree(a, endpoint)
    ensures endpoint in Verdicts(a) <==> endpoint in Verdicts(b)
    ensures endpoint in Verdicts(a) ==> Verdicts(a)[endpoint] == Verdicts(b)[endpoint]
  {
    assert forall x :: x in a <==> x in multiset(a);
    assert forall x :: x in b <==> x in multiset(b);
    VerdictOf(a, endpoint);
    VerdictOf(b, endpoint);
  }

  lemma SameOnBackends(r: Router, h: map<string, Health>, h': map<string, Health>)
    requires forall b :: b in r.Backends() ==> Relabelled(b, h) == Relabelled(b, h')
    ensures Relabel(r, h) == Relabel(r, h')
  {
    assert forall i :: 0 <= i < |r.Backends()| ==> r.Backends()[i] in r.Backends();
    var a, b := Relabel(r, h), Relabel(r, h');
    match r
    case StaticFile(_) =>
    case Poll(_, routes) => assert a.polled == b.polled;
    case HeaderBased(rules) =>
      assert forall i :: 0 <= i < |rules| ==> r.Backends()[i] == rules[i].Base();
      assert a.rules == b.rules;
    case Random(routes) => assert a.targets == b.targets;
    case WeightBased(items) =>
      assert forall i :: 0 <= i < |items| ==> r.Backends()[i] == items[i].Base();
      assert a.items == b.items;
  }

  /** `results[n]` joined last. */
  function MovedLast(results: seq<Joined>, n: nat): (moved: seq<Joined>)
    requires n < |results|
    ensures multiset(moved) == multiset(results)
  {
    assert results == results[..n] + [results[n]] + results[n + 1..];
    results[..n] + results[n + 1..] + [results[n]]
  }

  lemma LastVerdict(results: seq<Joined>, n: nat)
    requires n < |results| && Conclusive(results[n])
    ensures var v := Verdicts(MovedLast(results, n));
            results[n].endpoint in v && v[results[n].endpoint] == Verdict(results[n].reply)
  {
    var moved := MovedLast(results, n);
    assert moved[|moved| - 1] == results[n];
  }

  predicate HasBackend(r: Router, endpoint: string) {
    exists i :: 0 <= i < |r.Backends()| && r.Backends()[i].endpoint == endpoint
  }

  lemma RelabelledHealth(r: Router, h: map<string, Health>, i: nat)
    requires i < |r.Backends()|
    ensures |Relabel(r, h).Backends()| == |r.Backends()|
    ensures Relabel(r, h).Backends()[i] == Relabelled(r.Backends()[i], h)
  {
  }

  /**
   * ORDER INDEPENDENCE, EXACTLY. Every order in which the probes of a batch can join leaves the same
   * router if and only if no two conclusive results about one of its backends disagree, which is so
   * in particular when every endpoint is probed once.
   */
  lemma JoinOrderIrrelevant(r: Router, results: seq<Joined>)
    ensures (forall order :: multiset(order) == multiset(results) ==> ApplyAll(r, order) == ApplyAll(r, results))
            <==> (forall e :: HasBackend(r, e) ==> Agree(results, e))
  {
    hide Relabel, ApplyAll, Verdicts;
    if forall e :: HasBackend(r, e) ==> Agree(results, e) {
      forall order | multiset(order) == multiset(results) ensures ApplyAll(r, order) == ApplyAll(r, results) {
        OrderAgrees(r, results, order);
      }
    } else {
      var e :| HasBackend(r, e) && !Agree(results, e);
      var order := Disagreement(r, results, e);
    }
  }

  lemma OrderAgrees(r: Router, results: seq<Joined>, order: seq<Joined>)
    requires multiset(order) == multiset(results)
    requires forall e :: HasBackend(r, e) ==> Agree(results, e)
    ensures ApplyAll(r, order) == ApplyAll(r, results)
  {
    hide Relabel, ApplyAll, Verdicts;
    BatchIsRelabelling(r, order);
    BatchIsRelabelling(r, results);
    forall b | b in r.Backends() ensures Relabelled(b, Verdicts(order)) == Relabelled(b, Verdicts(results)) {
      assert HasBackend(r, b.endpoint);
      AgreeingVerdicts(results, order, b.endpoint);
    }
    SameOnBackends(r, Verdicts(order), Verdicts(results));
  }

  lemma Disagreement(r: Router, results: seq<Joined>, e: string) returns (order: seq<Joined>)
    requires HasBackend(r, e) && !Agree(results, e)
    ensures multiset(order) == multiset(results) && ApplyAll(r, order) != ApplyAll(r, results)
  {
    hide Relabel, ApplyAll, Verdicts;
    var a, b :| a in results && b in results && Conclusive(a) && Conclusive(b) && a.endpoint == e == b.endpoint
                && Verdict(a.reply) != Verdict(b.reply);
    var m :| 0 <= m < |results| && results[m] == a;
    var n :| 0 <= n < |results| && results[n] == b;
    var first, second := MovedLast(results, m), MovedLast(results, n);
    LastVerdict(results, m);
    LastVerdict(results, n);
    BatchIsRelabelling(r, first);
    BatchIsRelabelling(r, second);
    var i :| 0 <= i < |r.Backends()| && r.Backends()[i].endpoint == e;
    RelabelledHealth(r, Verdicts(first), i);
    RelabelledHealth(r, Verdicts(second), i);
    assert ApplyAll(r, first) != ApplyAll(r, second);
    order := if ApplyAll(r, first) != ApplyAll(r, results) then first else second;
  }
}
