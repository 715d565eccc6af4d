/** The session registry: the two dictionaries from user to running task.
    Nothing in the bot ever inserts into the timer dictionary; it is only
    read by the busy checks and emptied by a stop. */
module Sessions {
  import opened UserState

  /** An opaque handle of a running task. */
  type TaskId = nat

  datatype Registry = Registry(timers: map<UserId, TaskId>, cycles: map<UserId, TaskId>, nextTask: TaskId)

  const EmptyRegistry := Registry(map[], map[], 0)

  /** The guard of every start and settings request. */
  predicate Busy(r: Registry, u: UserId)
  {
    u in r.timers || u in r.cycles
  }

  /** Every handle in use was handed out before nextTask. */
  ghost predicate Fresh(r: Registry)
  {
    && (forall u :: u in r.timers ==> r.timers[u] < r.nextTask)
    && (forall u :: u in r.cycles ==> r.cycles[u] < r.nextTask)
  }

  datatype Start = Acquired(registry: Registry, task: TaskId) | AlreadyRunning

  /** A cycle start request: refused without any change while u has a run,
      otherwise u is registered with a new task. */
  function TryStartCycle(r: Registry, u: UserId): (s: Start)
    ensures s.AlreadyRunning? <==> Busy(r, u)
    ensures s.Acquired? ==>
              && s.registry.cycles == r.cycles[u := s.task]
              && s.registry.timers == r.timers
              && Busy(s.registry, u)
    ensures s.Acquired? && Fresh(r) ==>
              && Fresh(s.registry)
              && (forall v :: v in r.cycles ==> r.cycles[v] != s.task)
              && (forall v :: v in r.timers ==> r.timers[v] != s.task)
  {
    if Busy(r, u) then AlreadyRunning
    else Acquired(Registry(r.timers, r.cycles[u := r.nextTask], r.nextTask + 1), r.nextTask)
  }

  datatype Stop = Halted(registry: Registry, cancelled: set<TaskId>) | NotRunning

  /** A stop request: cancels and removes both of u's entries, or reports
      that nothing was running and changes nothing. */
  function StopRun(r: Registry, u: UserId): (s: Stop)
    ensures s.NotRunning? <==> !Busy(r, u)
    ensures s.Halted? ==>
              && !Busy(s.registry, u)
              && s.registry.timers == r.timers - {u}
              && s.registry.cycles == r.cycles - {u}
              && s.registry.nextTask == r.nextTask
    ensures s.Halted? ==>
              forall t :: t in s.cancelled <==>
                (u in r.cycles && t == r.cycles[u]) || (u in r.timers && t == r.timers[u])
    ensures s.Halted? && Fresh(r) ==> Fresh(s.registry)
  {
    if !Busy(r, u) then NotRunning
    else
      var fromCycles := if u in r.cycles then {r.cycles[u]} else {};
      var fromTimers := if u in r.timers then {r.timers[u]} else {};
      Halted(Registry(r.timers - {u}, r.cycles - {u}, r.nextTask), fromCycles + fromTimers)
  }

  /** A second start right after an accepted one is refused: one request
      acquires, the other finds the user running. */
  lemma SecondStartRefused(r: Registry, u: UserId)
    requires TryStartCycle(r, u).Acquired?
    ensures TryStartCycle(TryStartCycle(r, u).registry, u).AlreadyRunning?
  {
  }

  /** Deregistration on stop is immediate: a start right after a stop is
      accepted. */
  lemma StartAfterStop(r: Registry, u: UserId)
    requires Busy(r, u)
    ensures StopRun(r, u).Halted?
    ensures TryStartCycle(StopRun(r, u).registry, u).Acquired?
  {
  }

  /** A stop right after an accepted start cancels exactly the task the
      start registered and restores the cycle entries as they were, less u. */
  lemma StopCancelsStartedTask(r: Registry, u: UserId)
    requires TryStartCycle(r, u).Acquired?
    ensures var s := TryStartCycle(r, u);
            StopRun(s.registry, u) == Halted(Registry(r.timers, r.cycles - {u}, s.registry.nextTask), {s.task})
  {
    var s := TryStartCycle(r, u);
    var h := StopRun(s.registry, u);
    assert s.registry.cycles - {u} == r.cycles - {u};
    assert s.registry.timers - {u} == r.timers;
    assert h.cancelled == {s.task};
  }

  /** The removal the cycle task performs on its way out, as the source
      writes it: whatever task u is registered with is removed. */
  function ReleaseUser(r: Registry, u: UserId): (r': Registry)
    ensures r'.cycles == r.cycles - {u}
    ensures r'.timers == r.timers && r'.nextTask == r.nextTask
  {
    if u in r.cycles then r.(cycles := r.cycles - {u}) else r
  }

  /** The same removal restricted to the task's own entry. */
  function ReleaseTask(r: Registry, u: UserId, t: TaskId): (r': Registry)
    ensures u in r.cycles && r.cycles[u] == t ==> r'.cycles == r.cycles - {u}
    ensures !(u in r.cycles && r.cycles[u] == t) ==> r' == r
    ensures r'.timers == r.timers && r'.nextTask == r.nextTask
  {
    if u in r.cycles && r.cycles[u] == t then r.(cycles := r.cycles - {u}) else r
  }

  /** Both removals are guarded by a membership check, so running one twice
      is the same as running it once. */
  lemma ReleaseIdempotent(r: Registry, u: UserId, t: TaskId)
    ensures ReleaseUser(ReleaseUser(r, u), u) == ReleaseUser(r, u)
    ensures ReleaseTask(ReleaseTask(r, u, t), u, t) == ReleaseTask(r, u, t)
  {
  }

  /** The end of a stand-alone timer removes its entry if still present. */
  function ReleaseTimer(r: Registry, u: UserId): (r': Registry)
    ensures r'.timers == r.timers - {u}
    ensures r'.cycles == r.cycles && r'.nextTask == r.nextTask
  {
    if u in r.timers then r.(timers := r.timers - {u}) else r
  }
}
