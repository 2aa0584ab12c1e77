/** `PollRoute`: round robin over the candidates, with an index that may be left over from a larger set. */
module PollRouters {
  import opened Common
  import opened Liveness

  function HealthOf(routes: seq<BaseRoute>): (health: seq<Health>)
    ensures |health| == |routes|
    ensures forall i :: 0 <= i < |routes| ==> health[i] == routes[i].alive
  {
    seq(|routes|, i requires 0 <= i < |routes| => routes[i].alive)
  }

  function CandidatesOf(routes: seq<BaseRoute>): seq<nat> {
    Candidates(HealthOf(routes))
  }

  /** The index moves on by one and falls back to 0 at or past the end. */
  function Next(index: int, n: nat): (next: nat)
    requires -1 <= index
    ensures 0 < n ==> next < n
  {
    if n <= index + 1 then 0 else index + 1
  }

  /** `get_route`: the new index and the position picked. */
  function Step(index: int, routes: seq<BaseRoute>, rnd: nat): (int, Option<nat>)
    requires -1 <= index
  {
    var cands := CandidatesOf(routes);
    if routes == [] then (index, None)
    else if cands == [] then (index, Some(Draw(rnd, |routes|)))
    else (Next(index, |cands|), Some(cands[Next(index, |cands|)]))
  }

  function SetHealth(routes: seq<BaseRoute>, endpoint: string, health: Health): (after: seq<BaseRoute>)
    ensures |after| == |routes|
  {
    seq(|routes|, i requires 0 <= i < |routes| =>
      if routes[i].endpoint == endpoint then BaseRoute(endpoint, health) else routes[i])
  }

  class PollRoute {
    var currentIndex: int
    var routes: seq<BaseRoute>

    /** A loaded route starts at 0; -1 makes the first pick the first backend. */
    ghost predicate Valid()
      reads this
    {
      -1 <= currentIndex
    }

    constructor (currentIndex: int, routes: seq<BaseRoute>)
      requires -1 <= currentIndex
      ensures Valid() && this.currentIndex == currentIndex && this.routes == routes
    {
      this.currentIndex, this.routes := currentIndex, routes;
    }

    method GetRoute(rnd: nat) returns (result: PickResult)
      requires Valid()
      modifies this`currentIndex
      ensures Valid()
      ensures currentIndex == Step(old(currentIndex), routes, rnd).0
      ensures result == match Step(old(currentIndex), routes, rnd).1
                        case None => NoRoute
                        case Some(i) => Picked(routes[i])
    {
      if routes == [] {
        return NoRoute;
      }
      var cands := CandidatesOf(routes);
      if cands == [] {
        return Picked(routes[Draw(rnd, |routes|)]);
      }
      currentIndex := currentIndex + 1;
      if |cands| <= currentIndex {
        currentIndex := 0;
      }
      result := Picked(routes[cands[currentIndex]]);
    }

    method UpdateRouteAlive(endpoint: string, health: Health)
      modifies this`routes
      ensures routes == SetHealth(old(routes), endpoint, health)
    {
      for n := 0 to |routes|
        invariant |routes| == |old(routes)|
        invariant forall i :: 0 <= i < n ==> routes[i] == SetHealth(old(routes), endpoint, health)[i]
        invariant forall i :: n <= i < |routes| ==> routes[i] == old(routes)[i]
      {
        if routes[n].endpoint == endpoint {
          routes := routes[n := routes[n].(alive := health)];
        }
      }
    }
  }

  // ---------------------------------------------------------------- balance with fixed health

  /** The index after one call per element of `rnds`. */
  function After(index: int, routes: seq<BaseRoute>, rnds: seq<nat>): (r: int)
    requires -1 <= index
    ensures -1 <= r
  {
    if rnds == [] then index else Step(After(index, routes, rnds[..|rnds| - 1]), routes, rnds[|rnds| - 1]).0
  }

  /** How many of the calls picked position `i`. */
  function Served(index: int, routes: seq<BaseRoute>, rnds: seq<nat>, i: nat): nat
    requires -1 <= index
  {
    if rnds == [] then 0
    else
      var front := rnds[..|rnds| - 1];
      Served(index, routes, front, i) +
        if Step(After(index, routes, front), routes, rnds[|rnds| - 1]).1 == Some(i) then 1 else 0
  }

  function Residue(x: nat, k: nat): (r: nat)
    requires 0 < k
    ensures r < k
  {
    x % k
  }

  lemma ResidueSmall(x: nat, k: nat)
    requires x < k
    ensures Residue(x, k) == x
  {
    ModUnique(x, k, 0, x);
  }

  /** The router's own way of moving on is counting modulo the number of candidates. */
  lemma NextIsResidue(x: nat, k: nat)
    requires 0 < k
    ensures Next(Residue(x, k), k) == Residue(x + 1, k)
  {
    ModNext(x, k);
  }

  /**
   * CLOSED FORM. Whatever index a changed candidate set left behind, call number `m` (from 0) picks
   * candidate `(p + m) mod k`, where `p` is the one the first call picks.
   */
  lemma {:induction false} Cycles(index: int, routes: seq<BaseRoute>, rnds: seq<nat>, rnd: nat)
    requires -1 <= index && CandidatesOf(routes) != []
    ensures var cands := CandidatesOf(routes);
            var p := Residue(Next(index, |cands|) + |rnds|, |cands|);
            Step(After(index, routes, rnds), routes, rnd) == (p, Some(cands[p]))
  {
    hide Residue;
    var k := |CandidatesOf(routes)|;
    if rnds == [] {
      ResidueSmall(Next(index, k), k);
    } else {
      Cycles(index, routes, rnds[..|rnds| - 1], rnds[|rnds| - 1]);
      NextIsResidue(Next(index, k) + |rnds| - 1, k);
    }
  }

  /** How often residue `c` modulo `k` occurs among the `n` numbers from `from` on. */
  function Residues(from: nat, n: nat, k: nat, c: nat): nat
    requires 0 < k
  {
    if n == 0 then 0 else Residues(from, n - 1, k, c) + if Residue(from + n - 1, k) == c then 1 else 0
  }

  /** `c` comes up once the count of numbers passes its distance from the first residue. */
  lemma {:induction false} ResiduesInOneLap(from: nat, n: nat, k: nat, c: nat)
    requires 0 < k && n <= k && c < k
    ensures Residues(from, n, k, c) == if (if from % k <= c then c - from % k else c + k - from % k) < n then 1 else 0
  {
    if n != 0 {
      ResiduesInOneLap(from, n - 1, k, c);
      ResidueAhead(from, n - 1, k);
    }
  }

  lemma ResidueAhead(from: nat, d: nat, k: nat)
    requires 0 < k && d < k
    ensures (from + d) % k == if from % k + d < k then from % k + d else from % k + d - k
  {
    var q, r := from / k, from % k;
    assert from == k * q + r;
    Distribute(k, q, 1);
    if r + d < k {
      ModUnique(from + d, k, q, r + d);
    } else {
      ModUnique(from + d, k, q + 1, r + d - k);
    }
  }

  lemma {:induction false} ResiduesSplit(from: nat, n: nat, m: nat, k: nat, c: nat)
    requires 0 < k
    ensures Residues(from, n + m, k, c) == Residues(from, n, k, c) + Residues(from + n, m, k, c)
  {
    if m != 0 {
      ResiduesSplit(from, n, m - 1, k, c);
    }
  }

  lemma QuotientAfterLap(n: nat, k: nat)
    requires 0 < k <= n
    ensures n / k == (n - k) / k + 1 && CeilDiv(n, k) == CeilDiv(n - k, k) + 1
  {
    var a, b := n - k, n - 1;
    assert a == k * (a / k) + a % k && b == k * (b / k) + b % k;
    Distribute(k, a / k, 1);
    Distribute(k, b / k, 1);
    ModUnique(n, k, a / k + 1, a % k);
    ModUnique(n + k - 1, k, b / k + 1, b % k);
  }

  lemma {:induction false} ResiduesBalanced(from: nat, n: nat, k: nat, c: nat)
    requires 0 < k && c < k
    ensures n / k <= Residues(from, n, k, c) <= CeilDiv(n, k)
    ensures n == k ==> Residues(from, n, k, c) == 1
    decreases n
  {
    if n < k {
      ResiduesInOneLap(from, n, k, c);
      ModUnique(n, k, 0, n);
      if n != 0 {
        ModUnique(n + k - 1, k, 1, n - 1);
      }
    } else {
      ResiduesSplit(from, k, n - k, k, c);
      ResiduesInOneLap(from, k, k, c);
      ResiduesBalanced(from + k, n - k, k, c);
      QuotientAfterLap(n, k);
    }
  }

  lemma {:induction false} ServedIsResidues(index: int, routes: seq<BaseRoute>, rnds: seq<nat>, c: nat)
    requires -1 <= index && c < |CandidatesOf(routes)|
    ensures var cands := CandidatesOf(routes);
            Served(index, routes, rnds, cands[c]) == Residues(Next(index, |cands|), |rnds|, |cands|, c)
  {
    hide Step, After, Next, Residue, CandidatesOf;
    if rnds != [] {
      var front := rnds[..|rnds| - 1];
      ServedIsResidues(index, routes, front, c);
      OnePick(index, routes, front, rnds[|rnds| - 1], c);
    }
  }

  lemma OnePick(index: int, routes: seq<BaseRoute>, rnds: seq<nat>, rnd: nat, c: nat)
    requires -1 <= index && c < |CandidatesOf(routes)|
    ensures var cands := CandidatesOf(routes);
            Step(After(index, routes, rnds), routes, rnd).1 == Some(cands[c])
            <==> Residue(Next(index, |cands|) + |rnds|, |cands|) == c
  {
    hide Step, After, Next, Residue;
    var cands := CandidatesOf(routes);
    Cycles(index, routes, rnds, rnd);
    var p := Residue(Next(index, |cands|) + |rnds|, |cands|);
    assert cands[p] == cands[c] <==> p == c;
  }

  /**
   * BALANCE. From any index, `m` calls with health unchanged pick each of the `k` candidates
   * floor(m/k) or ceil(m/k) times; in particular any `k` consecutive calls pick each exactly once.
   */
  lemma RoundRobinBalanced(index: int, routes: seq<BaseRoute>, rnds: seq<nat>, c: nat)
    requires -1 <= index && c < |CandidatesOf(routes)|
    ensures var cands := CandidatesOf(routes);
            var served := Served(index, routes, rnds, cands[c]);
            && |rnds| / |cands| <= served <= CeilDiv(|rnds|, |cands|)
            && (|rnds| == |cands| ==> served == 1)
  {
    hide Residues, Served, CeilDiv;
    var cands := CandidatesOf(routes);
    ServedIsResidues(index, routes, rnds, c);
    ResiduesBalanced(Next(index, |cands|), |rnds|, |cands|, c);
  }
}
