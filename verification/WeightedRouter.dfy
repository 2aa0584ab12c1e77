/** `WeightBasedRoute`: per-backend counters against weights, with health changing the candidates. */
module WeightedRouters {
  import opened Common
  import opened Countdown
  import opened Liveness

  datatype Item = Item(endpoint: string, alive: Health, weight: I32, index: I32) {
    /** How many more picks this item gets before its quota is used. */
    function Left(): nat {
      Max(0, weight - index)
    }

    /** A negative weight counts as zero. */
    function Quota(): nat {
      Max(0, weight)
    }

    function Base(): BaseRoute {
      BaseRoute(endpoint, alive)
    }
  }

  function HealthOf(items: seq<Item>): (health: seq<Health>)
    ensures |health| == |items|
    ensures forall i :: 0 <= i < |items| ==> health[i] == items[i].alive
  {
    seq(|items|, i requires 0 <= i < |items| => items[i].alive)
  }

  function CandidatesOf(items: seq<Item>): seq<nat> {
    Candidates(HealthOf(items))
  }

  predicate Below(items: seq<Item>, i: nat)
    requires i < |items|
  {
    items[i].index < items[i].weight
  }

  predicate InRange(items: seq<Item>, cands: seq<nat>) {
    Increasing(cands) && forall j :: 0 <= j < |cands| ==> cands[j] < |items|
  }

  predicate AllReached(items: seq<Item>, cands: seq<nat>)
    requires InRange(items, cands)
  {
    forall j :: 0 <= j < |cands| ==> !Below(items, cands[j])
  }

  function Reset(items: seq<Item>, cands: seq<nat>): (reset: seq<Item>)
    ensures |reset| == |items|
  {
    seq(|items|, i requires 0 <= i < |items| => if i in cands then items[i].(index := 0) else items[i])
  }

  /** The first candidate from the `j`-th on that is below its weight; `|cands|` if there is none. */
  function FirstBelow(items: seq<Item>, cands: seq<nat>, j: nat): (k: nat)
    requires InRange(items, cands) && j <= |cands|
    ensures j <= k <= |cands|
    ensures forall m :: j <= m < k ==> !Below(items, cands[m])
    ensures k < |cands| ==> Below(items, cands[k])
    decreases |cands| - j
  {
    if j == |cands| || Below(items, cands[j]) then j else FirstBelow(items, cands, j + 1)
  }

  function Counted(items: seq<Item>, i: nat): (after: seq<Item>)
    requires i < |items| && Below(items, i)
    ensures |after| == |items|
  {
    items[i := items[i].(index := items[i].index + 1)]
  }

  function Serve(items: seq<Item>, cands: seq<nat>): (seq<Item>, Option<nat>)
    requires InRange(items, cands)
  {
    var ready := if AllReached(items, cands) then Reset(items, cands) else items;
    var k := FirstBelow(ready, cands, 0);
    if k == |cands| then (ready, None) else (Counted(ready, cands[k]), Some(cands[k]))
  }

  /** `get_route`: the new counters and the position picked; `None` is the error answer. */
  function Step(items: seq<Item>, rnd: nat): (seq<Item>, Option<nat>) {
    if items == [] then (items, None)
    else if CandidatesOf(items) == [] then
      var i := Draw(rnd, |items|);
      (items[i := items[i].(index := WrapI32(items[i].index + 1))], Some(i))
    else Serve(items, CandidatesOf(items))
  }

  function SetHealth(items: seq<Item>, endpoint: string, health: Health): (after: seq<Item>)
    ensures |after| == |items|
  {
    seq(|items|, i requires 0 <= i < |items| =>
      if items[i].endpoint == endpoint then items[i].(alive := health) else items[i])
  }

  class WeightBasedRoute {
    var routes: seq<Item>

    constructor (routes: seq<Item>)
      ensures this.routes == routes
    {
      this.routes := routes;
    }

    method GetRoute(rnd: nat) returns (result: PickResult)
      modifies this
      ensures routes == Step(old(routes), rnd).0
      ensures result == match Step(old(routes), rnd).1 case None => NoRoute case Some(i) => Picked(routes[i].Base())
    {
      if routes == [] {
        return NoRoute;
      }
      var cands := CandidatesOf(routes);
      if cands == [] {
        var i := Draw(rnd, |routes|);
        var counter: int := routes[i].index;
        routes := routes[i := routes[i].(index := WrapI32(counter + 1))];
        return Picked(routes[i].Base());
      }
      if AllReached(routes, cands) {
        ResetCounters(cands);
      }
      result := PickBelow(cands);
    }

    /** The loop over the candidates: the first one below its weight is counted and returned. */
    method PickBelow(cands: seq<nat>) returns (result: PickResult)
      requires InRange(routes, cands)
      modifies this
      ensures var k := FirstBelow(old(routes), cands, 0);
              if k == |cands| then routes == old(routes) && result == NoRoute
              else routes == Counted(old(routes), cands[k]) && result == Picked(routes[cands[k]].Base())
    {
      for j := 0 to |cands|
        invariant routes == old(routes)
        invariant FirstBelow(routes, cands, 0) == FirstBelow(routes, cands, j)
      {
        var i := cands[j];
        if routes[i].index < routes[i].weight {
          routes := routes[i := routes[i].(index := routes[i].index + 1)];
          return Picked(routes[i].Base());
        }
      }
      result := NoRoute;
    }

    method ResetCounters(cands: seq<nat>)
      requires InRange(routes, cands)
      modifies this
      ensures routes == Reset(old(routes), cands)
    {
      for j := 0 to |cands|
        invariant |routes| == |old(routes)|
        invariant forall i :: 0 <= i < |routes| ==>
                    routes[i] == if i in cands[..j] then old(routes)[i].(index := 0) else old(routes)[i]
      {
        routes := routes[cands[j] := routes[cands[j]].(index := 0)];
        assert cands[..j + 1] == cands[..j] + [cands[j]];
      }
      assert cands[..|cands|] == cands;
    }

    method UpdateRouteAlive(endpoint: string, health: Health)
      modifies this
      ensures routes == SetHealth(old(routes), endpoint, health)
    {
      for n := 0 to |routes|
        invariant |routes| == |old(routes)|
        invariant forall i :: 0 <= i < n ==> routes[i] == SetHealth(old(routes), endpoint, health)[i]
        invariant forall i :: n <= i < |routes| ==> routes[i] == old(routes)[i]
      {
        if routes[n].endpoint == endpoint {
          routes := routes[n := routes[n].(alive := health)];
        }
      }
    }
  }

  // ---------------------------------------------------------------- the counters are a countdown

  function Lefts(items: seq<Item>, cands: seq<nat>): (left: seq<nat>)
    requires InRange(items, cands)
    ensures |left| == |cands|
    ensures forall j :: 0 <= j < |cands| ==> left[j] == items[cands[j]].Left()
  {
    seq(|cands|, j requires 0 <= j < |cands| => items[cands[j]].Left())
  }

  function Quotas(items: seq<Item>, cands: seq<nat>): (quotas: seq<nat>)
    requires InRange(items, cands)
    ensures |quotas| == |cands|
    ensures forall j :: 0 <= j < |cands| ==> quotas[j] == items[cands[j]].Quota()
  {
    seq(|cands|, j requires 0 <= j < |cands| => items[cands[j]].Quota())
  }

  /** Everything but the counters is the same. */
  predicate SameBackends(items: seq<Item>, after: seq<Item>) {
    && |items| == |after|
    && forall i :: 0 <= i < |items| ==> after[i] == items[i].(index := after[i].index)
  }

  lemma SameBackendsSameCandidates(items: seq<Item>, after: seq<Item>)
    requires SameBackends(items, after)
    ensures HealthOf(after) == HealthOf(items) && CandidatesOf(after) == CandidatesOf(items)
    ensures InRange(items, CandidatesOf(items))
    ensures Quotas(after, CandidatesOf(items)) == Quotas(items, CandidatesOf(items))
  {
    assert HealthOf(after) == HealthOf(items);
  }

  /** One pick takes one unit from the first candidate that has some left, refilling first if none has. */
  lemma ServeIsCountdown(items: seq<Item>, cands: seq<nat>)
    requires InRange(items, cands)
    ensures var left, quotas := Lefts(items, cands), Quotas(items, cands);
            var ready := if Sum(left) == 0 then quotas else left;
            var (after, pick) := Serve(items, cands);
            && SameBackends(items, after)
            && (if Sum(ready) == 0 then pick == None && Lefts(after, cands) == ready
                else var k := FirstPositive(ready);
                     pick == Some(cands[k]) && Lefts(after, cands) == ready[k := ready[k] - 1])
  {
    hide FirstBelow, Lefts, Quotas, Reset, Counted, AllReached, SameBackends, Sum, FirstPositive;
    ServeKeepsBackends(items, cands);
    ResetRefills(items, cands);
    PickIsFirstPositive(if AllReached(items, cands) then Reset(items, cands) else items, cands);
  }

  lemma ServeKeepsBackends(items: seq<Item>, cands: seq<nat>)
    requires InRange(items, cands)
    ensures SameBackends(items, Serve(items, cands).0)
  {
  }

  lemma ResetRefills(items: seq<Item>, cands: seq<nat>)
    requires InRange(items, cands)
    ensures Sum(Lefts(items, cands)) == 0 <==> AllReached(items, cands)
    ensures AllReached(items, cands) ==> Lefts(Reset(items, cands), cands) == Quotas(items, cands)
  {
    var left := Lefts(items, cands);
    SumZero(left);
    assert forall j :: 0 <= j < |cands| ==> (left[j] == 0 <==> !Below(items, cands[j]));
    assert forall j :: 0 <= j < |cands| ==> cands[j] in cands;
    assert Lefts(Reset(items, cands), cands) == Quotas(items, cands);
  }

  lemma PickIsFirstPositive(ready: seq<Item>, cands: seq<nat>)
    requires InRange(ready, cands)
    ensures var left, k := Lefts(ready, cands), FirstBelow(ready, cands, 0);
            && (Sum(left) == 0 <==> k == |cands|)
            && (k < |cands| ==>
                  k == FirstPositive(left) && Lefts(Counted(ready, cands[k]), cands) == left[k := left[k] - 1])
  {
    var left, k := Lefts(ready, cands), FirstBelow(ready, cands, 0);
    SumZero(left);
    assert forall j :: 0 <= j < |cands| ==> (left[j] == 0 <==> !Below(ready, cands[j]));
    if k < |cands| {
      var p := FirstPositive(left);
      assert k == p;
      assert Lefts(Counted(ready, cands[k]), cands) == left[k := left[k] - 1];
    }
  }

  // ---------------------------------------------------------------- runs with fixed health

  /** The counters after one call per element of `rnds` (each call's random choice). */
  function After(items: seq<Item>, rnds: seq<nat>): seq<Item> {
    if rnds == [] then items else Step(After(items, rnds[..|rnds| - 1]), rnds[|rnds| - 1]).0
  }

  /** How many of the calls picked position `i`. */
  function Served(items: seq<Item>, rnds: seq<nat>, i: nat): nat {
    if rnds == [] then 0
    else
      var front := rnds[..|rnds| - 1];
      Served(items, front, i) + if Step(After(items, front), rnds[|rnds| - 1]).1 == Some(i) then 1 else 0
  }

  /** Which candidate the closed form names for call number `k`, counting from 0. */
  function Schedule(left: seq<nat>, quotas: seq<nat>, k: nat): nat
    requires 0 < Sum(quotas)
  {
    if k < Sum(left) then Slot(left, k) else Slot(quotas, (k - Sum(left)) % Sum(quotas))
  }

  /** What the closed form says is left after `k` calls. */
  function LeftAfter(left: seq<nat>, quotas: seq<nat>, k: nat): seq<nat>
    requires 0 < Sum(quotas)
  {
    if k <= Sum(left) then Drain(left, k)
    else Drain(quotas, (k - Sum(left) - 1) % Sum(quotas) + 1)
  }

  /** In the periodic part, what is ready for call number `m` is the row of quotas drained by `m mod W`. */
  lemma CycleReady(quotas: seq<nat>, now: seq<nat>, m: nat)
    requires 0 < Sum(quotas)
    requires if m == 0 then Sum(now) == 0 else now == Drain(quotas, (m - 1) % Sum(quotas) + 1)
    ensures (if Sum(now) == 0 then quotas else now) == Drain(quotas, m % Sum(quotas))
  {
    var w := Sum(quotas);
    DrainNothing(quotas);
    if m == 0 {
      ModUnique(0, w, 0, 0);
    } else {
      ModNext(m - 1, w);
      DrainSum(quotas, (m - 1) % w + 1);
    }
  }

  lemma LeftAfterNext(left: seq<nat>, quotas: seq<nat>, k: nat)
    requires |left| == |quotas| && 0 < Sum(quotas)
    ensures var now := LeftAfter(left, quotas, k);
            var ready := if Sum(now) == 0 then quotas else now;
            && 0 < Sum(ready)
            && FirstPositive(ready) == Schedule(left, quotas, k)
            && LeftAfter(left, quotas, k + 1) == ready[FirstPositive(ready) := ready[FirstPositive(ready)] - 1]
  {
    hide Drain, Slot, FirstPositive, Sum;
    if k < Sum(left) {
      DrainNext(left, k);
    } else {
      DrainSum(left, Sum(left));
      CycleReady(quotas, LeftAfter(left, quotas, k), k - Sum(left));
      DrainNext(quotas, (k - Sum(left)) % Sum(quotas));
    }
  }

  /** One call of a run that is on schedule: it picks what the schedule says and stays on schedule. */
  lemma NextCall(items: seq<Item>, now: seq<Item>, k: nat, rnd: nat)
    requires CandidatesOf(items) != []
    requires 0 < Sum(Quotas(items, CandidatesOf(items)))
    requires SameBackends(items, now)
    requires InRange(now, CandidatesOf(items))
    requires var cands := CandidatesOf(items);
             Lefts(now, cands) == LeftAfter(Lefts(items, cands), Quotas(items, cands), k)
    ensures var cands := CandidatesOf(items);
            var left, quotas := Lefts(items, cands), Quotas(items, cands);
            && SameBackends(items, Step(now, rnd).0)
            && InRange(Step(now, rnd).0, cands)
            && Lefts(Step(now, rnd).0, cands) == LeftAfter(left, quotas, k + 1)
            && Schedule(left, quotas, k) < |cands|
            && Step(now, rnd).1 == Some(cands[Schedule(left, quotas, k)])
  {
    hide Serve, Schedule, LeftAfter, Lefts, Quotas;
    var cands := CandidatesOf(items);
    SameBackendsSameCandidates(items, now);
    LeftAfterNext(Lefts(items, cands), Quotas(items, cands), k);
    ServeIsCountdown(now, cands);
  }

  /**
   * CLOSED FORM. With health fixed and some candidate of positive weight, call number `k` from any
   * counters first works off what is left of the current round, and after exactly the sum of
   * `max(0, weight - index)` calls follows the cumulative weights with period W, for ever.
   */
  lemma {:induction false} FollowsSchedule(items: seq<Item>, rnds: seq<nat>, rnd: nat)
    requires CandidatesOf(items) != []
    requires 0 < Sum(Quotas(items, CandidatesOf(items)))
    ensures var cands := CandidatesOf(items);
            var left, quotas := Lefts(items, cands), Quotas(items, cands);
            && SameBackends(items, After(items, rnds))
            && Lefts(After(items, rnds), cands) == LeftAfter(left, quotas, |rnds|)
            && Schedule(left, quotas, |rnds|) < |cands|
            && Step(After(items, rnds), rnd).1 == Some(cands[Schedule(left, quotas, |rnds|)])
  {
    hide Step, Schedule, LeftAfter, Lefts, Quotas;
    var cands := CandidatesOf(items);
    if rnds == [] {
      NothingTaken(Lefts(items, cands), Quotas(items, cands));
    } else {
      var front := rnds[..|rnds| - 1];
      FollowsSchedule(items, front, rnd);
      NextCall(items, After(items, front), |front|, rnds[|rnds| - 1]);
    }
    NextCall(items, After(items, rnds), |rnds|, rnd);
  }

  /** Call `k` falls in the cumulative interval of candidate `j`: of what is left of the round, or of a later one. */
  predicate FallsIn(left: seq<nat>, quotas: seq<nat>, k: nat, j: nat)
    requires 0 < Sum(quotas) && j < |left| == |quotas|
  {
    if k < Sum(left) then Sum(left[..j]) <= k < Sum(left[..j + 1])
    else Sum(quotas[..j]) <= (k - Sum(left)) % Sum(quotas) < Sum(quotas[..j + 1])
  }

  /** The same with intervals: the pick is the candidate whose cumulative interval the call falls in. */
  lemma PicksItsInterval(items: seq<Item>, rnds: seq<nat>, rnd: nat) returns (j: nat)
    requires CandidatesOf(items) != []
    requires 0 < Sum(Quotas(items, CandidatesOf(items)))
    ensures var cands := CandidatesOf(items);
            && j < |cands| && Step(After(items, rnds), rnd).1 == Some(cands[j])
            && FallsIn(Lefts(items, cands), Quotas(items, cands), |rnds|, j)
  {
    hide Step, After, Schedule, FallsIn;
    var cands := CandidatesOf(items);
    FollowsSchedule(items, rnds, rnd);
    j := Schedule(Lefts(items, cands), Quotas(items, cands), |rnds|);
    ScheduleFallsIn(Lefts(items, cands), Quotas(items, cands), |rnds|);
  }

  lemma ScheduleFallsIn(left: seq<nat>, quotas: seq<nat>, k: nat)
    requires 0 < Sum(quotas) && |left| == |quotas|
    ensures Schedule(left, quotas, k) < |left| && FallsIn(left, quotas, k, Schedule(left, quotas, k))
  {
    if k < Sum(left) {
      SlotInterval(left, k);
    } else {
      var r := (k - Sum(left)) % Sum(quotas);
      SlotInterval(quotas, r);
    }
  }

  lemma NothingTaken(left: seq<nat>, quotas: seq<nat>)
    requires 0 < Sum(quotas)
    ensures LeftAfter(left, quotas, 0) == left
  {
    DrainNothing(left);
  }

  /** All quotas are used for the first time after exactly as many calls as are left, not earlier. */
  lemma RoundEndsExactly(items: seq<Item>, rnds: seq<nat>)
    requires CandidatesOf(items) != []
    requires 0 < Sum(Quotas(items, CandidatesOf(items)))
    requires |rnds| <= Sum(Lefts(items, CandidatesOf(items)))
    ensures InRange(After(items, rnds), CandidatesOf(items))
    ensures AllReached(After(items, rnds), CandidatesOf(items)) <==> |rnds| == Sum(Lefts(items, CandidatesOf(items)))
  {
    hide Lefts, Quotas, After, AllReached;
    var cands := CandidatesOf(items);
    FollowsSchedule(items, rnds, 0);
    SameBackendsSameCandidates(items, After(items, rnds));
    DrainSum(Lefts(items, cands), |rnds|);
    ResetRefills(After(items, rnds), cands);
  }

  /**
   * EXACT SHARES. From counters with every quota used, a block of W calls picks each candidate
   * exactly `max(0, weight)` times and ends with every quota used again.
   */
  lemma BlockServesWeights(items: seq<Item>, rnds: seq<nat>, j: nat)
    requires var cands := CandidatesOf(items);
             && j < |cands| && 0 < Sum(Quotas(items, cands)) && Sum(Lefts(items, cands)) == 0
             && |rnds| == Sum(Quotas(items, cands))
    ensures Served(items, rnds, CandidatesOf(items)[j]) == items[CandidatesOf(items)[j]].Quota()
    ensures InRange(After(items, rnds), CandidatesOf(items))
    ensures Sum(Lefts(After(items, rnds), CandidatesOf(items))) == 0
  {
    hide Step, After, Served, Schedule, LeftAfter, Lefts, Quotas;
    var cands := CandidatesOf(items);
    ServedIsHits(items, rnds, j);
    FullPass(Quotas(items, cands), j);
    FollowsSchedule(items, rnds, 0);
    FullRound(Lefts(items, cands), Quotas(items, cands));
  }

  lemma FirstRound(left: seq<nat>, quotas: seq<nat>, k: nat)
    requires k < Sum(quotas) && Sum(left) == 0
    ensures Schedule(left, quotas, k) == Slot(quotas, k)
  {
    ModUnique(k, Sum(quotas), 0, k);
  }

  lemma FullRound(left: seq<nat>, quotas: seq<nat>)
    requires 0 < Sum(quotas) && Sum(left) == 0
    ensures Sum(LeftAfter(left, quotas, Sum(quotas))) == 0
  {
    ModUnique(Sum(quotas) - 1, Sum(quotas), 0, Sum(quotas) - 1);
    DrainSum(quotas, Sum(quotas));
  }

  lemma {:induction false} ServedIsHits(items: seq<Item>, rnds: seq<nat>, j: nat)
    requires var cands := CandidatesOf(items);
             && j < |cands| && 0 < Sum(Quotas(items, cands)) && Sum(Lefts(items, cands)) == 0
             && |rnds| <= Sum(Quotas(items, cands))
    ensures Served(items, rnds, CandidatesOf(items)[j]) == Hits(Quotas(items, CandidatesOf(items)), j, |rnds|)
  {
    hide Step, After, LeftAfter, Schedule, Lefts, Quotas, Sum;
    var cands, n := CandidatesOf(items), |rnds|;
    if rnds != [] {
      ServedIsHits(items, rnds[..n - 1], j);
      FollowsSchedule(items, rnds[..n - 1], rnds[n - 1]);
      FirstRound(Lefts(items, cands), Quotas(items, cands), n - 1);
      var p := Schedule(Lefts(items, cands), Quotas(items, cands), n - 1);
      assert cands[p] == cands[j] <==> p == j;
    }
  }

  /** A call errs exactly when there is no backend, or no candidate with anything left or any weight. */
  lemma FailsExactly(items: seq<Item>, rnd: nat)
    ensures Step(items, rnd).1 == None <==>
              || items == []
              || (&& CandidatesOf(items) != []
                  && forall i :: 0 <= i < |items| && MayServe(HealthOf(items), i) ==>
                       items[i].weight <= 0 && items[i].weight <= items[i].index)
  {
    if items != [] && CandidatesOf(items) != [] {
      var cands := CandidatesOf(items);
      ServeIsCountdown(items, cands);
      var left, quotas := Lefts(items, cands), Quotas(items, cands);
      SumZero(left);
      SumZero(quotas);
      if Step(items, rnd).1 == None {
        forall i | 0 <= i < |items| && MayServe(HealthOf(items), i)
          ensures items[i].weight <= 0 && items[i].weight <= items[i].index
        {
          assert i in cands;
          var j :| 0 <= j < |cands| && cands[j] == i;
          assert left[j] == 0 && quotas[j] == 0;
        }
      } else {
        var k := FirstPositive(if Sum(left) == 0 then quotas else left);
        assert MayServe(HealthOf(items), cands[k]);
      }
    }
  }
}
