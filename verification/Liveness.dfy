/** Backends with a health status, and which of them a router may pick. */
module Liveness {
  /** `is_alive`: `None` until the first conclusive probe, then `Some(true)` or `Some(false)`. */
  datatype Health = Unknown | Up | Down

  datatype BaseRoute = BaseRoute(endpoint: string, alive: Health)

  datatype PickResult = Picked(route: BaseRoute) | NoRoute

  /** A random index below `n`: `rnd` is the environment's choice, and every index has one. */
  function Draw(rnd: nat, n: nat): (i: nat)
    requires 0 < n
    ensures i < n
    ensures rnd < n ==> i == rnd
  {
    rnd % n
  }

  predicate Unconfigured(health: seq<Health>) {
    exists i :: 0 <= i < |health| && health[i] == Unknown
  }

  predicate Increasing(up: seq<nat>) {
    forall j, k :: 0 <= j < k < |up| ==> up[j] < up[k]
  }

  /** The positions at or after `from` that are up, in order. */
  function AliveFrom(health: seq<Health>, from: nat): (up: seq<nat>)
    requires from <= |health|
    ensures forall j :: 0 <= j < |up| ==> from <= up[j] < |health| && health[up[j]] == Up
    ensures forall i :: from <= i < |health| && health[i] == Up ==> i in up
    ensures Increasing(up)
    decreases |health| - from
  {
    if from == |health| then []
    else
      var rest := AliveFrom(health, from + 1);
      if health[from] == Up then [from] + rest else rest
  }

  function Everyone(n: nat): (all: seq<nat>)
    ensures |all| == n && forall j :: 0 <= j < n ==> all[j] == j && j in all
  {
    var all := seq(n, i => i);
    assert forall j :: 0 <= j < n ==> all[j] == j && all[j] in all;
    all
  }

  predicate MayServe(health: seq<Health>, i: nat)
    requires i < |health|
  {
    Unconfigured(health) || health[i] == Up
  }

  /** The positions a balancing router chooses among: all while some status is unknown, else those up. */
  function Candidates(health: seq<Health>): (cands: seq<nat>)
    ensures forall j :: 0 <= j < |cands| ==> cands[j] < |health| && MayServe(health, cands[j])
    ensures forall i :: 0 <= i < |health| && MayServe(health, i) ==> i in cands
    ensures Increasing(cands)
  {
    if Unconfigured(health) then Everyone(|health|) else AliveFrom(health, 0)
  }

  predicate IsSorted(positions: seq<nat>, n: nat) {
    Increasing(positions) && forall j :: 0 <= j < |positions| ==> positions[j] < n
  }

  /**
   * WHO MAY BE PICKED. Before every backend has been probed all of them take part, also those known to be
   * down; from then on exactly those that are up; in their order, each once.
   */
  lemma CandidatesExactly(health: seq<Health>, i: nat)
    requires i < |health|
    ensures IsSorted(Candidates(health), |health|)
    ensures Unknown in health ==> i in Candidates(health)
    ensures Unknown !in health ==> (i in Candidates(health) <==> health[i] == Up)
  {
    assert Unknown in health <==> Unconfigured(health);
  }

  /** Only when every backend is known to be down is there no candidate, and the pick blind. */
  lemma NoCandidates(health: seq<Health>)
    ensures Candidates(health) == [] <==> forall i :: 0 <= i < |health| ==> health[i] == Down
  {
    forall i | 0 <= i < |health| && health[i] != Down ensures Candidates(health) != [] {
      assert MayServe(health, i);
      assert i in Candidates(health);
    }
    if Candidates(health) != [] {
      assert MayServe(health, Candidates(health)[0]);
    }
  }
}
