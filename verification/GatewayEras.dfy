/** The gateway across control-plane updates: a route that survives them keeps its limiters, breakers and router. */
module GatewayEras {
  import opened Gateways
  import opened GatewayRuns
  import RateLimit
  import Chains
  import ChainRuns
  import Routers
  import Http
  import TB = TokenBuckets

  /**
   * The time between two updates: the routes in force and what happens to them. The route watched is at
   * position `at`, which a post, delete or put of other routes may change, as it may change which route a
   * request wins.
   */
  datatype Era = Era(g: Setting, routes: seq<RouteState>, events: seq<Event>, at: nat)

  ghost predicate Proper(e: Era) {
    Valid(e.g, e.routes) && AllFit(e.routes, e.events) && e.at < |e.routes|
  }

  ghost function End(e: Era): (s: RouteState)
    requires Proper(e)
    ensures |s.chain| == |e.routes[e.at].chain|
  {
    After(e.g, e.routes, e.events)[e.at]
  }

  /** The watched route goes from each era into the next as it is; everything else may change. */
  ghost predicate Survives(lib: Http.Library, eras: seq<Era>) {
    eras != [] &&
    var last := eras[|eras| - 1];
    && Proper(last) && last.g.lib == lib
    && (|eras| == 1 ||
        (Survives(lib, eras[..|eras| - 1]) && last.routes[last.at] == End(eras[|eras| - 2])))
  }

  /** All requests and outcomes the watched route's chain has seen. */
  ghost function History(eras: seq<Era>): seq<ChainRuns.Event> {
    if eras == [] then []
    else
      var last := eras[|eras| - 1];
      History(eras[..|eras| - 1]) + ChainEvents(last.g, last.events, last.at)
  }

  ghost function RouterHistory(lib: Http.Library, eras: seq<Era>): seq<Routers.Event>
    requires Survives(lib, eras)
  {
    var last := eras[|eras| - 1];
    var own := RouterEvents(last.g, last.routes, last.events, last.at);
    if |eras| == 1 then own else RouterHistory(lib, eras[..|eras| - 1]) + own
  }

  ghost function TotalForwarded(lib: Http.Library, eras: seq<Era>, kind: Kind): nat
    requires Survives(lib, eras)
  {
    var last := eras[|eras| - 1];
    var own := Forwarded(last.g, last.routes, last.events, last.at, kind);
    if |eras| == 1 then own else TotalForwarded(lib, eras[..|eras| - 1], kind) + own
  }

  lemma FirstAndLast(lib: Http.Library, eras: seq<Era>)
    requires Survives(lib, eras)
    ensures Proper(eras[|eras| - 1])
    ensures 1 < |eras| ==>
              && Survives(lib, eras[..|eras| - 1])
              && eras[..|eras| - 1][|eras| - 2] == eras[|eras| - 2] && eras[..|eras| - 1][0] == eras[0]
  {
  }

  /**
   * UPDATES ELSEWHERE DO NOT SHOW. However often other routes are posted, put or deleted in between, a
   * surviving route's chain is where all its own requests and outcomes lead from its first state on, and its
   * router where its own requests and probes lead.
   */
  lemma {:induction false} SurvivorRunsAlone(lib: Http.Library, eras: seq<Era>)
    requires Survives(lib, eras)
    ensures Proper(eras[0]) && Proper(eras[|eras| - 1])
    ensures var first, last := eras[0].routes[eras[0].at], End(eras[|eras| - 1]);
            && ChainRuns.Fits(first.chain, History(eras))
            && last.chain == ChainRuns.After(first.chain, History(eras))
            && first.router.Valid() && last.router == Routers.After(lib, first.router, RouterHistory(lib, eras))
  {
    hide Valid, AllFit, ChainEvents, RouterEvents, ChainRuns.After, ChainRuns.Fits, Routers.After;
    var last := eras[|eras| - 1];
    RouteRunsAlone(last.g, last.routes, last.events, last.at);
    RoutersAreValid(last);
    var own := ChainEvents(last.g, last.events, last.at);
    if |eras| == 1 {
      assert [] + own == own;
    } else {
      var front := eras[..|eras| - 1];
      FirstAndLast(lib, eras);
      SurvivorRunsAlone(lib, front);
      var first := eras[0].routes[eras[0].at];
      SameLength(first.chain, last.routes[last.at].chain, History(front), own);
      ChainAfterAppend(first.chain, History(front), own);
      RouterAfterAppend(lib, first.router, RouterHistory(lib, front),
                        RouterEvents(last.g, last.routes, last.events, last.at));
    }
  }

  lemma RoutersAreValid(e: Era)
    requires Proper(e)
    ensures e.routes[e.at].router.Valid()
  {
  }

  lemma SameLength(a: seq<Chains.State>, b: seq<Chains.State>, before: seq<ChainRuns.Event>, own: seq<ChainRuns.Event>)
    requires ChainRuns.Fits(a, before) && b == ChainRuns.After(a, before) && ChainRuns.Fits(b, own)
    ensures ChainRuns.Fits(a, own)
  {
  }

  lemma {:induction false} PassCountSplit(chain: seq<Chains.State>, a: seq<ChainRuns.Event>, b: seq<ChainRuns.Event>,
                                          kind: Kind)
    requires ChainRuns.Fits(chain, a) && ChainRuns.Fits(chain, b)
    ensures ChainRuns.Fits(chain, a + b) && ChainRuns.Fits(ChainRuns.After(chain, a), b)
    ensures ChainRuns.PassCount(chain, a + b, kind)
         == ChainRuns.PassCount(chain, a, kind) + ChainRuns.PassCount(ChainRuns.After(chain, a), b, kind)
  {
    hide ChainRuns.Passes, ChainRuns.Apply, ChainRuns.After;
    if b == [] {
      assert a + b == a;
    } else {
      var front := b[..|b| - 1];
      assert (a + b)[..|a + b| - 1] == a + front;
      PassCountSplit(chain, a, front, kind);
      ChainAfterAppend(chain, a, front);
    }
  }

  lemma {:induction false} TotalWithinPassCount(lib: Http.Library, eras: seq<Era>, kind: Kind)
    requires Survives(lib, eras)
    ensures Proper(eras[0]) && ChainRuns.Fits(eras[0].routes[eras[0].at].chain, History(eras))
    ensures TotalForwarded(lib, eras, kind)
         <= ChainRuns.PassCount(eras[0].routes[eras[0].at].chain, History(eras), kind)
  {
    hide Valid, AllFit, ChainEvents, RouterEvents, ChainRuns.After, ChainRuns.Fits, ChainRuns.PassCount, Forwarded;
    var last := eras[|eras| - 1];
    var own := ChainEvents(last.g, last.events, last.at);
    SurvivorRunsAlone(lib, eras);
    ForwardedWithinPassCount(last.g, last.routes, last.events, last.at, kind);
    if |eras| == 1 {
      assert [] + own == own;
    } else {
      var front := eras[..|eras| - 1];
      FirstAndLast(lib, eras);
      SurvivorRunsAlone(lib, front);
      TotalWithinPassCount(lib, front, kind);
      var first := eras[0].routes[eras[0].at].chain;
      SameLength(first, last.routes[last.at].chain, History(front), own);
      PassCountSplit(first, History(front), own, kind);
    }
  }

  /**
   * RATE BOUND ACROSS UPDATES. Updates of other routes are no way around a limit: over all eras a surviving
   * route lives through, what it forwards in the scope of a token bucket stays within that one bucket's
   * allowance from its first state on.
   */
  lemma SurvivorWithinEveryBucket(lib: Http.Library, eras: seq<Era>, k: nat, until: RateLimit.SystemTime)
    requires Survives(lib, eras) && Proper(eras[0])
    requires k < |eras[0].routes[eras[0].at].chain| && eras[0].routes[eras[0].at].chain[k].Bucket?
    requires 1 <= eras[0].routes[eras[0].at].chain[k].bc.rate
    requires ChainRuns.ReadBy(History(eras), k, until)
    ensures var bucket := eras[0].routes[eras[0].at].chain[k];
            TotalForwarded(lib, eras, ChainRuns.InScope(bucket.bc.scope)) <= TB.Bound(bucket.bc, bucket.bucket, until)
  {
    hide TotalForwarded, ChainRuns.PassCount, TB.Bound, History;
    var first := eras[0].routes[eras[0].at].chain;
    TotalWithinPassCount(lib, eras, ChainRuns.InScope(first[k].bc.scope));
    ChainRuns.ChainWithinEveryBucket(first, History(eras), k, until);
  }
}
