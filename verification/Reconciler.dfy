/** `do_health_check`: keeping the running probe tasks in step with the configuration, failures included. */
module Reconcilers {
  import opened Common

  datatype CheckType =
    | HttpGet(timeout: int, interval: int, path: string)
    | Redis(timeout: int, interval: int)
    | Mysql(timeout: int, interval: int)

  /** What a pass reads of a route; a file route has no endpoints. */
  datatype RouteInfo = RouteInfo(
    routeId: string,
    check: Option<CheckType>,
    minLiveness: Option<int>,
    endpoints: seq<string>)

  datatype TaskKey = TaskKey(routeId: string, check: CheckType, endpoints: seq<string>, minLiveness: int)

  /** Only routes with both a health check and a liveness section want a task. */
  function KeyOf(route: RouteInfo): Option<TaskKey> {
    if route.check.Some? && route.minLiveness.Some?
    then Some(TaskKey(route.routeId, route.check.value, route.endpoints, route.minLiveness.value))
    else None
  }

  function Desired(routes: seq<RouteInfo>): (keys: set<TaskKey>)
    ensures forall i :: 0 <= i < |routes| && KeyOf(routes[i]).Some? ==> KeyOf(routes[i]).value in keys
    ensures forall k :: k in keys ==> exists i :: 0 <= i < |routes| && KeyOf(routes[i]) == Some(k)
  {
    if routes == [] then {}
    else
      var front := Desired(routes[..|routes| - 1]);
      match KeyOf(routes[|routes| - 1])
      case None => front
      case Some(key) => front + {key}
  }

  /** Exactly the routes with a check and a liveness section want a task, described by all they say about it. */
  lemma {:induction false} WantedExactly(routes: seq<RouteInfo>, key: TaskKey)
    ensures key in Desired(routes) <==>
              RouteInfo(key.routeId, Some(key.check), Some(key.minLiveness), key.endpoints) in routes
  {
    if routes != [] {
      var front, last := routes[..|routes| - 1], routes[|routes| - 1];
      WantedExactly(front, key);
      assert routes == front + [last];
    }
  }

  /** Which calls go wrong in a pass: removals by task id, building and inserting a task by key. */
  datatype Faults = Faults(remove: set<U64>, build: set<TaskKey>, insert: set<TaskKey>)

  /** `issued` counts the ids handed out; the counter itself is `issued` modulo 2^64. */
  datatype State = State(tasks: map<TaskKey, U64>, issued: nat, live: set<U64>, calls: nat)

  const START := State(map[], 0, {}, 0)

  class DelayTimer {
    var live: set<U64>
    var calls: nat

    constructor ()
      ensures live == {} && calls == 0
    {
      live, calls := {}, 0;
    }

    method RemoveTask(id: U64, fails: bool) returns (ok: bool)
      modifies this
      ensures ok == !fails && calls == old(calls) + 1
      ensures live == if fails then old(live) else old(live) - {id}
    {
      calls := calls + 1;
      if !fails {
        live := live - {id};
      }
      ok := !fails;
    }

    method InsertTask(id: U64, fails: bool) returns (ok: bool)
      modifies this
      ensures ok == !fails && calls == old(calls) + 1
      ensures live == if fails then old(live) else old(live) + {id}
    {
      calls := calls + 1;
      if !fails {
        live := live + {id};
      }
      ok := !fails;
    }
  }

  /** `remove_task` for one stale entry; it stays if the timer refuses. */
  function Remove(s: State, key: TaskKey, f: Faults): State {
    if key !in s.tasks then s
    else if s.tasks[key] in f.remove then s.(calls := s.calls + 1)
    else State(s.tasks - {key}, s.issued, s.live - {s.tasks[key]}, s.calls + 1)
  }

  /** One missing task: the id is used up whatever happens, the entry is made only if the timer takes it. */
  function Submit(s: State, key: TaskKey, f: Faults): State {
    var id := WrapU64(s.issued);
    if key in f.build then s.(issued := s.issued + 1)
    else if key in f.insert then s.(issued := s.issued + 1, calls := s.calls + 1)
    else State(s.tasks[key := id], s.issued + 1, s.live + {id}, s.calls + 1)
  }

  function RemoveAll(s: State, keys: seq<TaskKey>, f: Faults): State {
    if keys == [] then s else Remove(RemoveAll(s, keys[..|keys| - 1], f), keys[|keys| - 1], f)
  }

  function SubmitAll(s: State, keys: seq<TaskKey>, f: Faults): State {
    if keys == [] then s else Submit(SubmitAll(s, keys[..|keys| - 1], f), keys[|keys| - 1], f)
  }

  /** Some order of visiting a set. */
  ghost predicate Enumerates(order: seq<TaskKey>, keys: set<TaskKey>) {
    && (forall i, j :: 0 <= i < j < |order| ==> order[i] != order[j])
    && forall k :: k in order <==> k in keys
  }

  /** The entries no route wants any more, and the wanted keys without a task, each in some order. */
  ghost predicate Orders(s: State, desired: set<TaskKey>, stale: seq<TaskKey>, missing: seq<TaskKey>) {
    Enumerates(stale, s.tasks.Keys - desired) && Enumerates(missing, desired - s.tasks.Keys)
  }

  /** One pass: stale tasks are removed where the timer allows, then missing ones are submitted. */
  function Pass(s: State, f: Faults, stale: seq<TaskKey>, missing: seq<TaskKey>): State {
    SubmitAll(RemoveAll(s, stale, f), missing, f)
  }

  class HealthCheck {
    var taskIdMap: map<TaskKey, U64>
    var currentId: U64
    const timer: DelayTimer
    ghost var issued: nat

    ghost predicate Valid()
      reads this
    {
      currentId == WrapU64(issued)
    }

    ghost function Now(): State
      reads this, timer
    {
      State(taskIdMap, issued, timer.live, timer.calls)
    }

    constructor ()
      ensures Valid() && fresh(timer) && Now() == START
    {
      taskIdMap, currentId, issued := map[], 0, 0;
      timer := new DelayTimer();
    }

    method DoHealthCheck(services: seq<seq<RouteInfo>>, f: Faults)
      returns (ghost desired: set<TaskKey>, ghost stale: seq<TaskKey>, ghost missing: seq<TaskKey>)
      requires Valid()
      modifies this, timer
      ensures Valid()
      ensures forall k :: k in desired <==> exists i :: 0 <= i < |services| && k in Desired(services[i])
      ensures Orders(old(Now()), desired, stale, missing)
      ensures Now() == Pass(old(Now()), f, stale, missing)
    {
      hide RemoveAll, SubmitAll, Desired, Enumerates;
      var wanted: set<TaskKey> := {};
      for i := 0 to |services|
        invariant forall k :: k in wanted <==> exists j :: 0 <= j < i && k in Desired(services[j])
        invariant Now() == old(Now()) && Valid()
      {
        var here := CollectKeys(services[i]);
        wanted := wanted + here;
      }
      desired := wanted;
      stale := RetainWanted(wanted, f);
      RemovedAreStale(old(Now()), desired, stale, f);
      missing := SubmitMissing(wanted, f);
    }

    method CollectKeys(routes: seq<RouteInfo>) returns (keys: set<TaskKey>)
      ensures keys == Desired(routes)
    {
      keys := {};
      for i := 0 to |routes|
        invariant keys == Desired(routes[..i])
      {
        assert routes[..i + 1][..i] == routes[..i];
        if routes[i].check.None? || routes[i].minLiveness.None? {
          continue;
        }
        var r := routes[i];
        keys := keys + {TaskKey(r.routeId, r.check.value, r.endpoints, r.minLiveness.value)};
      }
      assert routes[..|routes|] == routes;
    }

    /** `retain`: the entries are visited in any order. */
    method RetainWanted(desired: set<TaskKey>, f: Faults) returns (ghost stale: seq<TaskKey>)
      requires Valid()
      modifies this`taskIdMap, timer
      ensures Valid()
      ensures Enumerates(stale, old(taskIdMap).Keys - desired)
      ensures Now() == RemoveAll(old(Now()), stale, f)
    {
      var todo := taskIdMap.Keys - desired;
      stale := [];
      while todo != {}
        invariant todo <= taskIdMap.Keys
        invariant Valid() && Now() == RemoveAll(old(Now()), stale, f)
        invariant Remaining(old(taskIdMap).Keys - desired, stale, todo)
      {
        var key :| key in todo;
        Visit(old(taskIdMap).Keys - desired, stale, todo, key);
        stale := stale + [key];
        todo := todo - {key};
        var id := taskIdMap[key];
        var removed := timer.RemoveTask(id, id in f.remove);
        if removed {
          taskIdMap := taskIdMap - {key};
        }
      }
    }

    /** The missing tasks are submitted in any order; every attempt uses up an id. */
    method SubmitMissing(desired: set<TaskKey>, f: Faults) returns (ghost missing: seq<TaskKey>)
      requires Valid()
      modifies this, timer
      ensures Valid()
      ensures Enumerates(missing, desired - old(taskIdMap).Keys)
      ensures Now() == SubmitAll(old(Now()), missing, f)
    {
      hide WrapU64;
      var todo := desired - taskIdMap.Keys;
      missing := [];
      while todo != {}
        invariant Valid() && Now() == SubmitAll(old(Now()), missing, f)
        invariant Remaining(desired - old(taskIdMap).Keys, missing, todo)
      {
        var key :| key in todo;
        Visit(desired - old(taskIdMap).Keys, missing, todo, key);
        missing := missing + [key];
        todo := todo - {key};
        var id := currentId;
        currentId := WrapU64(currentId + 1);
        WrapU64Succ(issued);
        issued := issued + 1;
        if key !in f.build {
          var inserted := timer.InsertTask(id, key in f.insert);
          if inserted {
            taskIdMap := taskIdMap[key := id];
          }
        }
      }
    }
  }

  /** Some of the keys have been visited, the others are still to do. */
  ghost predicate Remaining(keys: set<TaskKey>, visited: seq<TaskKey>, todo: set<TaskKey>) {
    Enumerates(visited, keys - todo) && todo <= keys
  }

  lemma Visit(keys: set<TaskKey>, visited: seq<TaskKey>, todo: set<TaskKey>, key: TaskKey)
    requires Remaining(keys, visited, todo) && key in todo
    ensures Remaining(keys, visited + [key], todo - {key})
    ensures (visited + [key])[..|visited|] == visited
  {
  }

  /** Removing stale entries changes nothing for wanted keys. */
  lemma {:induction false} RemoveAllPointwise(s: State, stale: seq<TaskKey>, f: Faults)
    ensures var r := RemoveAll(s, stale, f);
            && r.issued == s.issued
            && (forall k :: k in r.tasks <==> k in s.tasks && (k !in stale || s.tasks[k] in f.remove))
            && (forall k :: k in r.tasks ==> r.tasks[k] == s.tasks[k])
  {
    if stale != [] {
      var front := stale[..|stale| - 1];
      RemoveAllPointwise(s, front, f);
      assert stale == front + [stale[|stale| - 1]];
    }
  }

  lemma RemovedAreStale(s: State, desired: set<TaskKey>, stale: seq<TaskKey>, f: Faults)
    requires Enumerates(stale, s.tasks.Keys - desired)
    ensures desired - RemoveAll(s, stale, f).tasks.Keys == desired - s.tasks.Keys
  {
    RemoveAllPointwise(s, stale, f);
  }

  // ---------------------------------------------------------------- the invariant over all passes

  predicate Distinct(tasks: map<TaskKey, U64>) {
    forall j, k :: j in tasks && k in tasks && tasks[j] == tasks[k] ==> j == k
  }

  ghost predicate Known(tasks: map<TaskKey, U64>, id: U64) {
    exists k :: k in tasks && tasks[k] == id
  }

  /** Distinct ids, and the timer runs exactly the tasks in the map. */
  ghost predicate InStep(s: State) {
    && Distinct(s.tasks)
    && (forall k :: k in s.tasks ==> s.tasks[k] in s.live)
    && (forall id :: id in s.live ==> Known(s.tasks, id))
  }

  /** Every id in use is below the 64-bit counter `current_id`. */
  predicate BelowCounter(s: State) {
    forall k :: k in s.tasks ==> s.tasks[k] < WrapU64(s.issued)
  }

  /** What keeps ids distinct: those in use have been handed out. */
  ghost predicate Invariant(s: State) {
    InStep(s) && forall k :: k in s.tasks ==> s.tasks[k] < s.issued
  }

  lemma KnownWithout(tasks: map<TaskKey, U64>, key: TaskKey, id: U64)
    requires key in tasks && id != tasks[key] && Known(tasks, id)
    ensures Known(tasks - {key}, id)
  {
    var k :| k in tasks && tasks[k] == id;
    assert k in tasks - {key} && (tasks - {key})[k] == id;
  }

  lemma KnownWith(tasks: map<TaskKey, U64>, key: TaskKey, new_: U64, id: U64)
    requires key !in tasks && (id == new_ || Known(tasks, id))
    ensures Known(tasks[key := new_], id)
  {
    var more := tasks[key := new_];
    if id == new_ {
      assert more[key] == id;
    } else {
      var k :| k in tasks && tasks[k] == id;
      assert more[k] == id;
    }
  }

  lemma RemoveKeepsInvariant(s: State, key: TaskKey, f: Faults)
    requires Invariant(s)
    ensures Invariant(Remove(s, key, f))
  {
    hide Known;
    if key in s.tasks && s.tasks[key] !in f.remove {
      forall id | id in s.live - {s.tasks[key]} ensures Known(s.tasks - {key}, id) {
        KnownWithout(s.tasks, key, id);
      }
    }
  }

  lemma SubmitKeepsInvariant(s: State, key: TaskKey, f: Faults)
    requires Invariant(s) && key !in s.tasks && s.issued < TWO_64
    ensures Invariant(Submit(s, key, f))
  {
    hide Known;
    if key !in f.build && key !in f.insert {
      forall id | id in s.live + {s.issued} ensures Known(s.tasks[key := s.issued], id) {
        KnownWith(s.tasks, key, s.issued, id);
      }
    }
  }

  lemma {:induction false} RemoveAllKeepsInvariant(s: State, keys: seq<TaskKey>, f: Faults)
    requires Invariant(s)
    ensures Invariant(RemoveAll(s, keys, f))
  {
    if keys != [] {
      RemoveAllKeepsInvariant(s, keys[..|keys| - 1], f);
      RemoveKeepsInvariant(RemoveAll(s, keys[..|keys| - 1], f), keys[|keys| - 1], f);
    }
  }

  lemma {:induction false} SubmitAllPointwise(s: State, missing: seq<TaskKey>, f: Faults)
    ensures var r := SubmitAll(s, missing, f);
            && r.issued == s.issued + |missing|
            && (forall k :: k in r.tasks <==> k in s.tasks || (k in missing && k !in f.build && k !in f.insert))
            && (forall k :: k in s.tasks && k !in missing ==> r.tasks[k] == s.tasks[k])
  {
    if missing != [] {
      var front := missing[..|missing| - 1];
      SubmitAllPointwise(s, front, f);
      assert missing == front + [missing[|missing| - 1]];
    }
  }

  lemma {:induction false} SubmitAllKeepsInvariant(s: State, missing: seq<TaskKey>, f: Faults)
    requires Invariant(s) && Enumerates(missing, set k | k in missing)
    requires forall k :: k in missing ==> k !in s.tasks
    requires s.issued + |missing| <= TWO_64
    ensures Invariant(SubmitAll(s, missing, f))
  {
    if missing != [] {
      hide Invariant;
      var front, last := missing[..|missing| - 1], missing[|missing| - 1];
      SubmitAllKeepsInvariant(s, front, f);
      SubmitAllPointwise(s, front, f);
      assert last !in front;
      SubmitKeepsInvariant(SubmitAll(s, front, f), last, f);
    }
  }

  /**
   * One pass keeps the invariant under any mix of failures and in any order, as long as the 64-bit
   * counter has not come round.
   */
  lemma PassKeepsInvariant(s: State, desired: set<TaskKey>, f: Faults, stale: seq<TaskKey>, missing: seq<TaskKey>)
    requires Invariant(s) && Orders(s, desired, stale, missing)
    requires s.issued + |missing| <= TWO_64
    ensures Invariant(Pass(s, f, stale, missing))
    ensures Pass(s, f, stale, missing).issued < TWO_64 ==> BelowCounter(Pass(s, f, stale, missing))
  {
    hide InStep, RemoveAll, SubmitAll;
    RemoveAllKeepsInvariant(s, stale, f);
    RemoveAllPointwise(s, stale, f);
    SubmitAllKeepsInvariant(RemoveAll(s, stale, f), missing, f);
  }

  /** A pass with the configuration it saw, what failed, and the orders in which entries were visited. */
  datatype PassInput = PassInput(desired: set<TaskKey>, faults: Faults, stale: seq<TaskKey>, missing: seq<TaskKey>)

  function After(passes: seq<PassInput>): State {
    if passes == [] then START
    else
      var p := passes[|passes| - 1];
      Pass(After(passes[..|passes| - 1]), p.faults, p.stale, p.missing)
  }

  /** Every pass visits its own stale and missing keys. */
  ghost predicate Proper(passes: seq<PassInput>) {
    passes == [] ||
    (var front, p := passes[..|passes| - 1], passes[|passes| - 1];
     Proper(front) && Orders(After(front), p.desired, p.stale, p.missing))
  }

  /**
   * RECONCILER INVARIANT. After every run of passes, whatever failed on the way, task ids are distinct, the
   * timer runs exactly the tasks the map knows, and ids are below the counter until it comes round.
   */
  lemma {:induction false} ReachableInvariant(passes: seq<PassInput>)
    requires Proper(passes) && After(passes).issued <= TWO_64
    ensures Invariant(After(passes))
    ensures After(passes).issued < TWO_64 ==> BelowCounter(After(passes))
  {
    if passes != [] {
      hide InStep, RemoveAll, SubmitAll;
      var front, p := passes[..|passes| - 1], passes[|passes| - 1];
      RemoveAllPointwise(After(front), p.stale, p.faults);
      SubmitAllPointwise(RemoveAll(After(front), p.stale, p.faults), p.missing, p.faults);
      ReachableInvariant(front);
      PassKeepsInvariant(After(front), p.desired, p.faults, p.stale, p.missing);
    }
  }

  // ---------------------------------------------------------------- when the counter comes round

  const KEY_A := TaskKey("a", Redis(1, 1), [], 1)
  const KEY_B := TaskKey("b", Redis(1, 1), [], 1)

  /** A pass that starts the first task, then `n` passes in which the timer refuses the second. */
  function Retrying(n: nat): (passes: seq<PassInput>)
    ensures |passes| == n + 1
  {
    [PassInput({KEY_A}, NO_FAULTS, [], [KEY_A])] +
      seq(n, _ => PassInput({KEY_A, KEY_B}, Faults({}, {}, {KEY_B}), [], [KEY_B]))
  }

  lemma SubmitOne(s: State, key: TaskKey, f: Faults)
    ensures Pass(s, f, [], [key]) == Submit(s, key, f)
  {
    hide Submit;
    assert [key][..0] == [] && SubmitAll(s, [key][..0], f) == s;
  }

  /** Each retry uses up an id. */
  lemma {:induction false} RetryingState(n: nat)
    ensures Proper(Retrying(n)) && After(Retrying(n)) == State(map[KEY_A := 0], n + 1, {0}, n + 1)
  {
    hide Pass, RemoveAll, SubmitAll;
    var passes := Retrying(n);
    if n == 0 {
      assert passes[..0] == [];
      SubmitOne(START, KEY_A, NO_FAULTS);
    } else {
      assert passes[..n] == Retrying(n - 1);
      RetryingState(n - 1);
      SubmitOne(After(Retrying(n - 1)), KEY_B, passes[n].faults);
    }
  }

  /** Retries until every id is used up, and a pass in which the second task starts after all. */
  function Colliding(): seq<PassInput> {
    Retrying(TWO_64 - 1) + [PassInput({KEY_A, KEY_B}, NO_FAULTS, [], [KEY_B])]
  }

  /** A run that hands out one id too many ends with two running tasks under the id 0. */
  lemma CounterWrapCollides()
    ensures Proper(Colliding()) && After(Colliding()).issued == TWO_64 + 1
    ensures After(Colliding()).tasks == map[KEY_A := 0, KEY_B := 0] && !InStep(After(Colliding()))
  {
    hide Pass, RemoveAll, SubmitAll, Retrying;
    var front := Retrying(TWO_64 - 1);
    RetryingState(TWO_64 - 1);
    assert Colliding()[..TWO_64] == front;
    SubmitOne(After(front), KEY_B, NO_FAULTS);
    var tasks := After(Colliding()).tasks;
    assert tasks[KEY_A] == tasks[KEY_B];
  }

  /**
   * HOW LONG IDS LAST, EXACTLY. All runs that hand out at most `n` ids keep map and timer in step, with
   * distinct ids, if and only if `n <= 2^64`.
   */
  lemma StaysInStepExactly(n: nat)
    ensures (forall passes :: Proper(passes) && After(passes).issued <= n ==> InStep(After(passes)))
       <==> n <= TWO_64
  {
    hide InStep, Proper, After, Colliding;
    if n <= TWO_64 {
      forall passes | Proper(passes) && After(passes).issued <= n ensures InStep(After(passes)) {
        ReachableInvariant(passes);
      }
    } else {
      CounterWrapCollides();
    }
  }

  /** And all of them keep every id below the counter if and only if `n < 2^64`. */
  lemma BelowCounterExactly(n: nat)
    ensures (forall passes :: Proper(passes) && After(passes).issued <= n ==> BelowCounter(After(passes)))
       <==> n < TWO_64
  {
    hide InStep, Proper, After, Retrying;
    if n < TWO_64 {
      forall passes | Proper(passes) && After(passes).issued <= n ensures BelowCounter(After(passes)) {
        ReachableInvariant(passes);
      }
    } else {
      RetryingState(TWO_64 - 1);
      assert KEY_A in After(Retrying(TWO_64 - 1)).tasks;
    }
  }

  const NO_FAULTS := Faults({}, {}, {})

  /**
   * CONVERGENCE. From any state, one pass without failures makes the tasks exactly the wanted ones, and
   * those that stay keep their ids.
   */
  lemma FaultFreePassConverges(s: State, desired: set<TaskKey>, stale: seq<TaskKey>, missing: seq<TaskKey>)
    requires Orders(s, desired, stale, missing)
    ensures var s' := Pass(s, NO_FAULTS, stale, missing);
            && s'.tasks.Keys == desired
            && forall k :: k in desired && k in s.tasks ==> s'.tasks[k] == s.tasks[k]
  {
    RemoveAllPointwise(s, stale, NO_FAULTS);
    SubmitAllPointwise(RemoveAll(s, stale, NO_FAULTS), missing, NO_FAULTS);
  }

  /**
   * A CHANGED ROUTE STARTS OVER. If a route changes in anything its task depends on, its endpoints say, then a
   * pass without failures over the new routes ends the old task and starts one under an id just handed out.
   */
  lemma ChangedRouteStartsOver(s: State, routes: seq<RouteInfo>, old_: TaskKey, new_: TaskKey,
                               stale: seq<TaskKey>, missing: seq<TaskKey>)
    requires Invariant(s) && s.issued + |missing| <= TWO_64
    requires Orders(s, Desired(routes), stale, missing)
    requires old_ in s.tasks && new_ !in s.tasks
    requires RouteInfo(old_.routeId, Some(old_.check), Some(old_.minLiveness), old_.endpoints) !in routes
    requires RouteInfo(new_.routeId, Some(new_.check), Some(new_.minLiveness), new_.endpoints) in routes
    ensures var s' := Pass(s, NO_FAULTS, stale, missing);
            && old_ !in s'.tasks && s.tasks[old_] !in s'.live
            && new_ in s'.tasks && s.issued <= s'.tasks[new_] && s'.tasks[new_] in s'.live
  {
    hide RemoveAll, SubmitAll, Desired;
    WantedExactly(routes, old_);
    WantedExactly(routes, new_);
    FaultFreePassConverges(s, Desired(routes), stale, missing);
    PassKeepsInvariant(s, Desired(routes), NO_FAULTS, stale, missing);
    RemoveAllPointwise(s, stale, NO_FAULTS);
    var removed := RemoveAll(s, stale, NO_FAULTS);
    SubmittedIdsAreNew(removed, missing, NO_FAULTS);
  }

  /** Ids handed out in a pass are those from the counter on. */
  lemma {:induction false} SubmittedIdsAreNew(s: State, missing: seq<TaskKey>, f: Faults)
    requires Enumerates(missing, set k | k in missing) && s.issued + |missing| <= TWO_64
    ensures SubmitAll(s, missing, f).issued == s.issued + |missing|
    ensures forall k :: k in SubmitAll(s, missing, f).tasks ==>
              || (k in s.tasks && SubmitAll(s, missing, f).tasks[k] == s.tasks[k])
              || (k in missing && s.issued <= SubmitAll(s, missing, f).tasks[k] < s.issued + |missing|)
  {
    if missing != [] {
      var front, last := missing[..|missing| - 1], missing[|missing| - 1];
      SubmittedIdsAreNew(s, front, f);
      assert missing == front + [last];
    }
  }

  /** A pass calls the timer once for every stale task and once for every missing one that could be built. */
  lemma {:induction false} CallsAreCounted(s: State, missing: seq<TaskKey>, f: Faults)
    ensures SubmitAll(s, missing, f).calls == s.calls + Built(missing, f)
  {
    if missing != [] {
      CallsAreCounted(s, missing[..|missing| - 1], f);
    }
  }

  function Built(missing: seq<TaskKey>, f: Faults): nat {
    if missing == [] then 0
    else Built(missing[..|missing| - 1], f) + if missing[|missing| - 1] in f.build then 0 else 1
  }

  lemma {:induction false} RemovalsAreCounted(s: State, stale: seq<TaskKey>, f: Faults)
    requires Enumerates(stale, set k | k in stale) && forall k :: k in stale ==> k in s.tasks
    ensures RemoveAll(s, stale, f).calls == s.calls + |stale|
  {
    if stale != [] {
      var front, last := stale[..|stale| - 1], stale[|stale| - 1];
      assert stale == front + [last];
      RemovalsAreCounted(s, front, f);
      RemoveAllPointwise(s, front, f);
    }
  }

  /** Whatever fails in a pass, a wanted task that runs keeps running under its id. */
  lemma WantedTasksUndisturbed(s: State, desired: set<TaskKey>, f: Faults, stale: seq<TaskKey>,
                               missing: seq<TaskKey>, key: TaskKey)
    requires Orders(s, desired, stale, missing)
    requires key in desired && key in s.tasks
    ensures var s' := Pass(s, f, stale, missing);
            key in s'.tasks && s'.tasks[key] == s.tasks[key]
  {
    RemoveAllPointwise(s, stale, f);
    SubmitAllPointwise(RemoveAll(s, stale, f), missing, f);
  }

  /** Once the tasks are the wanted ones, a pass on the same configuration calls the timer for nothing. */
  lemma ConvergedPassIsIdle(s: State, f: Faults, stale: seq<TaskKey>, missing: seq<TaskKey>)
    requires Orders(s, s.tasks.Keys, stale, missing)
    ensures Pass(s, f, stale, missing) == s
  {
    assert forall i :: 0 <= i < |stale| ==> stale[i] in stale;
    assert forall i :: 0 <= i < |missing| ==> missing[i] in missing;
  }
}
