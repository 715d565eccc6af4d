/** The bot as a whole: the store, the registry, the running cycle tasks and
    the per-user settings prompt, driven by one request at a time. A request
    is a button press, a typed message, or the end of the phase a cycle task
    is running (which is where a pending cancellation is delivered). */
module Handlers {
  import opened Basics
  import opened UserState
  import opened Sessions
  import opened CycleScheduler

  /** runs holds the cycle tasks that have not finished; cancelling those
      whose cancellation was requested but not yet delivered; awaiting the
      interval a user was prompted for and has not yet set. */
  datatype Bot = Bot(
    store: Store,
    registry: Registry,
    runs: map<TaskId, Cycle>,
    cancelling: set<TaskId>,
    awaiting: map<UserId, Kind>)

  const Initial := Bot(EmptyStore, EmptyRegistry, map[], {}, map[])

  datatype Request =
    | CycleButton(user: UserId)
    | StopButton(user: UserId)
    | SettingsButton(user: UserId, kind: Kind)
    | MinutesMessage(user: UserId, parsed: Option<int>)
    | BackButton(user: UserId)
    | StatsButton(user: UserId)
    | PhaseEnd(task: TaskId)

  datatype Reply =
    | BusyRefusal
    | CycleStarted(task: TaskId)
    | RunStopped
    | NothingToStop
    | AskMinutes(current: int)
    | IntervalSet(minutes: int)
    | EnterNumber
    | EnterPositive
    | MainMenu
    | StatsView(stats: Stats, settings: Intervals, workTime: Option<int>)
    | CycleReport(pomodoros: nat)
    | NoReply

  datatype Outcome = Outcome(bot: Bot, reply: Reply)

  /** The durations of iv converted to the whole minutes the menus show. */
  function MinutesView(iv: Intervals): (m: Intervals)
    ensures forall k: Kind :: Duration(m, k) == Minutes(Duration(iv, k))
  {
    Intervals(Minutes(iv.pomodoro), Minutes(iv.shortBreak), Minutes(iv.longBreak))
  }

  // ------------------------------------------------------------- requests

  /** "Start full cycle": refused while u has a run; otherwise u is
      registered with a new task whose cycle is launched. */
  function OnCycleButton(b: Bot, u: UserId): (o: Outcome)
    ensures Busy(b.registry, u) ==> o == Outcome(b, BusyRefusal)
    ensures !Busy(b.registry, u) ==>
              && o.reply == CycleStarted(b.registry.nextTask)
              && o.bot.registry == Registry(b.registry.timers, b.registry.cycles[u := b.registry.nextTask], b.registry.nextTask + 1)
              && o.bot.runs == b.runs[b.registry.nextTask := Cycle(u, 0, 0, Announcing, [])]
              && o.bot.cancelling == b.cancelling
              && u in o.bot.store.intervals
    ensures forall v :: IntervalsOf(o.bot.store, v) == IntervalsOf(b.store, v)
    ensures forall v :: StatsOf(o.bot.store, v) == StatsOf(b.store, v)
    ensures o.bot.awaiting == b.awaiting
  {
    match TryStartCycle(b.registry, u)
    case AlreadyRunning => Outcome(b, BusyRefusal)
    case Acquired(registry, t) =>
      var p := Launch(GetIntervals(b.store, u).store, u);
      Outcome(b.(store := p.store, registry := registry, runs := b.runs[t := p.cycle]), CycleStarted(t))
  }

  /** "Stop": cancels and deregisters u's runs, or reports that none runs.
      Other users' entries and the pending cancellations stay as they are. */
  function OnStopButton(b: Bot, u: UserId): (o: Outcome)
    ensures !Busy(b.registry, u) ==> o == Outcome(b, NothingToStop)
    ensures Busy(b.registry, u) ==>
              && o.reply == RunStopped
              && !Busy(o.bot.registry, u)
              && o.bot.registry == StopRun(b.registry, u).registry
              && o.bot.cancelling == b.cancelling + StopRun(b.registry, u).cancelled
              && (u in b.registry.cycles ==> b.registry.cycles[u] in o.bot.cancelling)
              && o.bot.runs == b.runs
    ensures o.bot.store == b.store && o.bot.awaiting == b.awaiting
  {
    match StopRun(b.registry, u)
    case NotRunning => Outcome(b, NothingToStop)
    case Halted(registry, cancelled) =>
      Outcome(b.(registry := registry, cancelling := b.cancelling + cancelled), RunStopped)
  }

  /** Opening the settings of one interval: refused while u has a run,
      otherwise u is prompted with the current value in minutes. */
  function OnSettingsButton(b: Bot, u: UserId, k: Kind): (o: Outcome)
    ensures Busy(b.registry, u) ==> o == Outcome(b, BusyRefusal)
    ensures !Busy(b.registry, u) ==>
              && o.reply == AskMinutes(Minutes(Duration(IntervalsOf(b.store, u), k)))
              && o.bot.awaiting == b.awaiting[u := k]
              && u in o.bot.store.intervals
    ensures forall v :: IntervalsOf(o.bot.store, v) == IntervalsOf(b.store, v)
    ensures o.bot.store.stats == b.store.stats
    ensures o.bot.registry == b.registry && o.bot.runs == b.runs && o.bot.cancelling == b.cancelling
  {
    if Busy(b.registry, u) then Outcome(b, BusyRefusal)
    else
      var a := GetIntervals(b.store, u);
      Outcome(b.(store := a.store, awaiting := b.awaiting[u := k]), AskMinutes(Minutes(Duration(a.value, k))))
  }

  /** A typed message while u is prompted for an interval. The source checks
      nothing about runs here; the corrected build refuses while u is busy,
      as the settings button does. */
  function OnMinutesMessage(b: Bot, u: UserId, parsed: Option<int>, build: Build): (o: Outcome)
    ensures u !in b.awaiting ==> o == Outcome(b, NoReply)
    ensures u in b.awaiting && build == Corrected && Busy(b.registry, u) ==> o == Outcome(b, BusyRefusal)
    ensures u in b.awaiting && (build == AsWritten || !Busy(b.registry, u)) ==>
              && (parsed.None? ==> o == Outcome(b, EnterNumber))
              && (parsed.Some? && parsed.value <= 0 ==> o == Outcome(b, EnterPositive))
              && (parsed.Some? && parsed.value > 0 ==>
                    && o.reply == IntervalSet(parsed.value)
                    && Duration(IntervalsOf(o.bot.store, u), b.awaiting[u]) == parsed.value * 60
                    && (forall j: Kind :: j != b.awaiting[u] ==>
                          Duration(IntervalsOf(o.bot.store, u), j) == Duration(IntervalsOf(b.store, u), j))
                    && o.bot.awaiting == b.awaiting - {u})
    ensures forall v :: v != u ==> IntervalsOf(o.bot.store, v) == IntervalsOf(b.store, v)
    ensures forall v :: StatsOf(o.bot.store, v) == StatsOf(b.store, v)
    ensures o.bot.registry == b.registry && o.bot.runs == b.runs && o.bot.cancelling == b.cancelling
    ensures Good(b.store) ==> Good(o.bot.store)
  {
    if u !in b.awaiting then Outcome(b, NoReply)
    else if build == Corrected && Busy(b.registry, u) then Outcome(b, BusyRefusal)
    else
      match SubmitMinutes(b.store, u, b.awaiting[u], parsed)
      case NotANumber => Outcome(b, EnterNumber)
      case NotPositive => Outcome(b, EnterPositive)
      case Accepted(st) => Outcome(b.(store := st, awaiting := b.awaiting - {u}), IntervalSet(parsed.value))
  }

  /** "Back": leaves the prompt and shows the menu. */
  function OnBackButton(b: Bot, u: UserId): (o: Outcome)
    ensures o.reply == MainMenu
    ensures o.bot.awaiting == b.awaiting - {u}
    ensures forall v :: IntervalsOf(o.bot.store, v) == IntervalsOf(b.store, v)
    ensures o.bot.store.stats == b.store.stats
    ensures o.bot.registry == b.registry && o.bot.runs == b.runs && o.bot.cancelling == b.cancelling
  {
    Outcome(b.(store := GetIntervals(b.store, u).store, awaiting := b.awaiting - {u}), MainMenu)
  }

  /** "Statistics": the counters, the settings in minutes, and the total
      work time once a pomodoro was completed. */
  function OnStatsButton(b: Bot, u: UserId): (o: Outcome)
    ensures o.reply.StatsView?
    ensures o.reply.stats == StatsOf(b.store, u)
    ensures o.reply.settings == MinutesView(IntervalsOf(b.store, u))
    ensures o.reply.workTime == WorkTime(StatsOf(b.store, u), IntervalsOf(b.store, u))
    ensures o.reply.workTime.Some? <==> StatsOf(b.store, u).pomodoros > 0
    ensures forall v :: IntervalsOf(o.bot.store, v) == IntervalsOf(b.store, v)
    ensures forall v :: StatsOf(o.bot.store, v) == StatsOf(b.store, v)
    ensures o.bot.registry == b.registry && o.bot.runs == b.runs && o.bot.cancelling == b.cancelling
    ensures o.bot.awaiting == b.awaiting
  {
    var s := GetStats(b.store, u);
    var iv := GetIntervals(s.store, u);
    Outcome(b.(store := iv.store), StatsView(s.value, MinutesView(iv.value), WorkTime(s.value, iv.value)))
  }

  /** The removal a cancelled cycle task performs before it ends: as written
      u's entry whatever it holds, corrected only an entry still holding t. */
  function Release(r: Registry, u: UserId, t: TaskId, build: Build): (r': Registry)
    ensures build == AsWritten ==> u !in r'.cycles
    ensures build == Corrected ==> u !in r'.cycles || r'.cycles[u] != t
    ensures build == Corrected ==>
              forall v :: v in r.cycles && r.cycles[v] != t ==> v in r'.cycles && r'.cycles[v] == r.cycles[v]
    ensures forall v :: v in r'.cycles ==> v in r.cycles && r'.cycles[v] == r.cycles[v]
    ensures forall v :: v != u && v in r.cycles ==> v in r'.cycles
    ensures r'.timers == r.timers && r'.nextTask == r.nextTask
  {
    if build == AsWritten then ReleaseUser(r, u) else ReleaseTask(r, u, t)
  }

  /** A pending cancellation of task t is delivered at the phase in
      progress: the task sends its report and removes its registration. */
  function DeliverCancel(b: Bot, t: TaskId, build: Build): (o: Outcome)
    requires t in b.runs && t in b.cancelling
    ensures !b.runs[t].stage.Stopped? ==>
              && o.bot.store == b.store
              && o.reply == CycleReport(Report(b.runs[t], build))
    ensures o.bot.registry == Release(b.registry, b.runs[t].user, t, build)
    ensures o.bot.runs == b.runs - {t}
    ensures t !in o.bot.runs && o.bot.runs.Keys <= b.runs.Keys
    ensures forall s :: s in b.runs && s != t ==> s in o.bot.runs && o.bot.runs[s] == b.runs[s]
    ensures o.bot.cancelling == b.cancelling - {t}
    ensures o.bot.store.intervals == b.store.intervals && o.bot.awaiting == b.awaiting
  {
    var c := b.runs[t];
    var p := CycleScheduler.Step(Progress(c, b.store), Cancelled, build);
    var reply := if p.cycle.stage.report.Some? then CycleReport(p.cycle.stage.report.value) else NoReply;
    Outcome(b.(store := p.store, registry := Release(b.registry, c.user, t, build), runs := b.runs - {t}, cancelling := b.cancelling - {t}), reply)
  }

  /** The phase of task t runs to its end: the cycle takes its step with the
      result of the registry check, and leaves the runs if it stopped. */
  function AdvancePhase(b: Bot, t: TaskId, build: Build): (o: Outcome)
    requires t in b.runs && t !in b.cancelling
    ensures var p := CycleScheduler.Step(Progress(b.runs[t], b.store), Finished(b.runs[t].user in b.registry.cycles), build);
            && o.bot.store == p.store
            && (p.cycle.stage.Stopped? ==> o.bot.runs == b.runs - {t})
            && (!p.cycle.stage.Stopped? ==> o.bot.runs == b.runs[t := p.cycle])
    ensures var p := CycleScheduler.Step(Progress(b.runs[t], b.store), Finished(b.runs[t].user in b.registry.cycles), build);
            && (t in o.bot.runs <==> !p.cycle.stage.Stopped?)
            && (t in o.bot.runs ==> o.bot.runs[t] == p.cycle)
    ensures !b.runs[t].stage.Stopped? ==> o.reply == NoReply
    ensures o.bot.runs.Keys <= b.runs.Keys
    ensures forall s :: s in b.runs && s != t ==> s in o.bot.runs && o.bot.runs[s] == b.runs[s]
    ensures o.bot.store.intervals == b.store.intervals
    ensures o.bot.registry == b.registry && o.bot.cancelling == b.cancelling && o.bot.awaiting == b.awaiting
  {
    var c := b.runs[t];
    var p := CycleScheduler.Step(Progress(c, b.store), Finished(c.user in b.registry.cycles), build);
    if p.cycle.stage.Stopped? then
      var reply := if p.cycle.stage.report.Some? then CycleReport(p.cycle.stage.report.value) else NoReply;
      Outcome(b.(store := p.store, runs := b.runs - {t}), reply)
    else
      Outcome(b.(store := p.store, runs := b.runs[t := p.cycle]), NoReply)
  }

  /** The phase task t is running ends: a pending cancellation is delivered,
      otherwise the stats are updated and the loop checks whether the user
      is still registered before it starts the next phase. A task whose cycle
      stops leaves the set of runs; no other run is touched. */
  function OnPhaseEnd(b: Bot, t: TaskId, build: Build): (o: Outcome)
    ensures t !in b.runs ==> o == Outcome(b, NoReply)
    ensures t in b.runs && t in b.cancelling && !b.runs[t].stage.Stopped? ==>
              && t !in o.bot.runs
              && o.bot.store == b.store
              && o.bot.registry == Release(b.registry, b.runs[t].user, t, build)
              && o.reply == CycleReport(Report(b.runs[t], build))
    ensures t in b.runs && t !in b.cancelling ==>
              var p := CycleScheduler.Step(Progress(b.runs[t], b.store), Finished(b.runs[t].user in b.registry.cycles), build);
              && o.bot.store == p.store
              && o.bot.registry == b.registry
              && (t in o.bot.runs <==> !p.cycle.stage.Stopped?)
              && (t in o.bot.runs ==> o.bot.runs[t] == p.cycle)
              && (!b.runs[t].stage.Stopped? ==> o.reply == NoReply)
    ensures forall s :: s in b.runs && s != t ==> s in o.bot.runs && o.bot.runs[s] == b.runs[s]
    ensures o.bot.runs.Keys <= b.runs.Keys
    ensures t in b.runs ==> o.bot.cancelling == b.cancelling - {t}
    ensures forall v :: IntervalsOf(o.bot.store, v) == IntervalsOf(b.store, v)
    ensures o.bot.awaiting == b.awaiting
    ensures o.bot.registry.timers == b.registry.timers && o.bot.registry.nextTask == b.registry.nextTask
  {
    if t !in b.runs then Outcome(b, NoReply)
    else if t in b.cancelling then DeliverCancel(b, t, build)
    else
      var o := AdvancePhase(b, t, build);
      assert b.cancelling - {t} == b.cancelling;
      o
  }

  /** The bot's reaction to one request. Only a typed value changes
      settings, and only for its sender; only the end of a phase changes
      statistics or a running cycle, and only that task's. */
  function Handle(b: Bot, req: Request, build: Build): (o: Outcome)
    ensures forall v :: !(req.MinutesMessage? && req.user == v) ==> IntervalsOf(o.bot.store, v) == IntervalsOf(b.store, v)
    ensures !req.PhaseEnd? ==> forall v :: StatsOf(o.bot.store, v) == StatsOf(b.store, v)
    ensures forall t :: t in b.runs && t < b.registry.nextTask && req != PhaseEnd(t) ==>
              t in o.bot.runs && o.bot.runs[t] == b.runs[t]
  {
    match req
    case CycleButton(u) => OnCycleButton(b, u)
    case StopButton(u) => OnStopButton(b, u)
    case SettingsButton(u, k) => OnSettingsButton(b, u, k)
    case MinutesMessage(u, parsed) => OnMinutesMessage(b, u, parsed, build)
    case BackButton(u) => OnBackButton(b, u)
    case StatsButton(u) => OnStatsButton(b, u)
    case PhaseEnd(t) => OnPhaseEnd(b, t, build)
  }

  /** The end of a stand-alone countdown: the completion is recorded, and
      outside a cycle the timer entry is removed if still present. No
      request of the bot starts such a timer. */
  datatype TimerEnd = TimerEnd(store: Store, registry: Registry, notice: Notice)

  function FinishTimer(st: Store, r: Registry, u: UserId, tag: string, inCycle: bool): (e: TimerEnd)
    ensures StatsOf(e.store, u) == RecordCompletion(StatsOf(st, u), KindOf(tag))
    ensures forall v :: v != u ==> StatsOf(e.store, v) == StatsOf(st, v)
    ensures e.store.intervals == st.intervals
    ensures e.notice == CompletionNotice(StatsOf(e.store, u), KindOf(tag))
    ensures inCycle ==> e.registry == r
    ensures !inCycle ==> e.registry == ReleaseTimer(r, u)
    ensures !inCycle ==> u !in e.registry.timers && e.registry.cycles == r.cycles
  {
    var c := Complete(st, u, tag);
    TimerEnd(c.store, if inCycle then r else ReleaseTimer(r, u), c.notice)
  }

  /** The busy guard of the start and settings buttons: both refuse and
      change nothing while u has a timer or a cycle, both go ahead otherwise. */
  lemma BusyGuard(b: Bot, u: UserId, k: Kind)
    ensures Busy(b.registry, u) <==> OnCycleButton(b, u) == Outcome(b, BusyRefusal)
    ensures Busy(b.registry, u) <==> OnSettingsButton(b, u, k) == Outcome(b, BusyRefusal)
  {
  }

  // ------------------------------------------------------------ invariant

  /** The registry and the set of runs agree: every registered user has a
      live, not cancelled run of its own, every run not being cancelled is
      the one registered for its user, the timer dictionary stays empty, and
      every stored interval is a positive number of whole minutes. */
  ghost predicate Coherent(b: Bot)
  {
    var r := b.registry;
    && Fresh(r)
    && r.timers == map[]
    && (forall u :: u in r.cycles ==>
          r.cycles[u] in b.runs && b.runs[r.cycles[u]].user == u && r.cycles[u] !in b.cancelling)
    && (forall t :: t in b.runs ==> t < r.nextTask && !b.runs[t].stage.Stopped?)
    && (forall t :: t in b.runs && t !in b.cancelling ==>
          b.runs[t].user in r.cycles && r.cycles[b.runs[t].user] == t)
    && b.cancelling <= b.runs.Keys
    && Good(b.store)
  }

  lemma InitialCoherent()
    ensures Coherent(Initial)
  {
  }

  lemma CycleButtonCoherent(b: Bot, u: UserId)
    requires Coherent(b)
    ensures Coherent(OnCycleButton(b, u).bot)
  {
    var o := OnCycleButton(b, u);
    if !Busy(b.registry, u) {
      var t := b.registry.nextTask;
      assert t !in b.runs;
      assert t !in b.cancelling;
      assert o.bot.store == Launch(GetIntervals(b.store, u).store, u).store;
    }
  }

  lemma StopButtonCoherent(b: Bot, u: UserId)
    requires Coherent(b)
    ensures Coherent(OnStopButton(b, u).bot)
  {
    var o := OnStopButton(b, u);
    if Busy(b.registry, u) {
      assert u in b.registry.cycles;
      var t := b.registry.cycles[u];
      assert o.bot.cancelling == b.cancelling + {t};
      forall v | v in o.bot.registry.cycles
        ensures o.bot.registry.cycles[v] !in o.bot.cancelling
      {
        assert v != u;
        assert b.registry.cycles[v] != t;
      }
    }
  }

  lemma SettingsButtonCoherent(b: Bot, u: UserId, k: Kind)
    requires Coherent(b)
    ensures Coherent(OnSettingsButton(b, u, k).bot)
  {
  }

  lemma MinutesMessageCoherent(b: Bot, u: UserId, parsed: Option<int>)
    requires Coherent(b)
    ensures Coherent(OnMinutesMessage(b, u, parsed, Corrected).bot)
  {
  }

  lemma BackButtonCoherent(b: Bot, u: UserId)
    requires Coherent(b)
    ensures Coherent(OnBackButton(b, u).bot)
  {
    var a := GetIntervals(b.store, u);
    assert Good(a.store);
  }

  lemma StatsButtonCoherent(b: Bot, u: UserId)
    requires Coherent(b)
    ensures Coherent(OnStatsButton(b, u).bot)
  {
    var s := GetStats(b.store, u);
    assert Good(s.store);
    assert Good(GetIntervals(s.store, u).store);
  }

  lemma PhaseEndCoherent(b: Bot, t: TaskId)
    requires Coherent(b)
    ensures Coherent(OnPhaseEnd(b, t, Corrected).bot)
  {
    if t in b.runs {
      var c := b.runs[t];
      var o := OnPhaseEnd(b, t, Corrected);
      var event := if t in b.cancelling then Cancelled else Finished(c.user in b.registry.cycles);
      var p := CycleScheduler.Step(Progress(c, b.store), event, Corrected);
      assert p.store.intervals == b.store.intervals;
      assert Good(o.bot.store);
      if t in b.cancelling {
        assert !(c.user in b.registry.cycles && b.registry.cycles[c.user] == t);
        assert o.bot.registry == b.registry;
      } else {
        assert event == Finished(true);
        assert !p.cycle.stage.Stopped? by {
          assert !c.stage.Stopped?;
        }
        assert o.bot.registry == b.registry;
        assert p.cycle.user == c.user;
      }
    }
  }

  /** The corrected bot keeps the registry and the runs coherent under every
      request. */
  lemma HandleCoherent(b: Bot, req: Request)
    requires Coherent(b)
    ensures Coherent(Handle(b, req, Corrected).bot)
  {
    match req
    case CycleButton(u) => CycleButtonCoherent(b, u);
    case StopButton(u) => StopButtonCoherent(b, u);
    case SettingsButton(u, k) => SettingsButtonCoherent(b, u, k);
    case MinutesMessage(u, parsed) => MinutesMessageCoherent(b, u, parsed);
    case BackButton(u) => BackButtonCoherent(b, u);
    case StatsButton(u) => StatsButtonCoherent(b, u);
    case PhaseEnd(t) => PhaseEndCoherent(b, t);
  }

  /** The bot after a sequence of requests. */
  function Replay(b: Bot, reqs: seq<Request>, build: Build): Bot
    decreases |reqs|
  {
    if |reqs| == 0 then b else Handle(Replay(b, reqs[..|reqs| - 1], build), reqs[|reqs| - 1], build).bot
  }

  lemma {:induction false} ReplayCoherent(reqs: seq<Request>)
    ensures Coherent(Replay(Initial, reqs, Corrected))
    decreases |reqs|
  {
    if |reqs| == 0 {
      InitialCoherent();
    } else {
      ReplayCoherent(reqs[..|reqs| - 1]);
      HandleCoherent(Replay(Initial, reqs[..|reqs| - 1], Corrected), reqs[|reqs| - 1]);
    }
  }

  /** In a coherent bot a user has at most one run that is not being
      cancelled, and a stop request reaches it. */
  lemma OneRunPerUser(b: Bot, t1: TaskId, t2: TaskId)
    requires Coherent(b)
    requires t1 in b.runs && t1 !in b.cancelling
    requires t2 in b.runs && t2 !in b.cancelling
    requires b.runs[t1].user == b.runs[t2].user
    ensures t1 == t2
    ensures OnStopButton(b, b.runs[t1].user).reply == RunStopped
    ensures t1 in OnStopButton(b, b.runs[t1].user).bot.cancelling
  {
  }

  /** While u has a run, no request of the corrected bot changes u's
      interval settings. */
  lemma SettingsFrozenWhileBusy(b: Bot, req: Request, u: UserId)
    requires Busy(b.registry, u)
    ensures IntervalsOf(Handle(b, req, Corrected).bot.store, u) == IntervalsOf(b.store, u)
  {
  }

  // --------------------------------------------- the source as written

  lemma ReplaySnoc(b: Bot, reqs: seq<Request>, req: Request, build: Build)
    ensures Replay(b, reqs + [req], build) == Handle(Replay(b, reqs, build), req, build).bot
  {
    assert (reqs + [req])[..|reqs|] == reqs;
  }

  /** The states the stale-release trace passes through. */
  const TraceStore := Store(map[], map[1 := DefaultIntervals])
  const TraceCycle := Cycle(1, 0, 0, Announcing, [])

  const Started := Bot(TraceStore, Registry(map[], map[1 := 0], 1), map[0 := TraceCycle], {}, map[])
  const StopPending := Bot(TraceStore, Registry(map[], map[], 1), map[0 := TraceCycle], {0}, map[])
  const Restarted := Bot(TraceStore, Registry(map[], map[1 := 1], 2), map[0 := TraceCycle, 1 := TraceCycle], {0}, map[])

  lemma StartStep()
    ensures Handle(Initial, CycleButton(1), AsWritten).bot == Started
  {
  }

  lemma StopStep()
    ensures Handle(Started, StopButton(1), AsWritten).bot == StopPending
  {
    assert map[1 := 0] - {1} == map[];
  }

  lemma RestartStep()
    ensures Handle(StopPending, CycleButton(1), AsWritten).bot == Restarted
  {
  }

  lemma StaleExitStep()
    ensures Handle(Restarted, PhaseEnd(0), AsWritten).bot == StaleEnd
  {
    assert map[0 := TraceCycle, 1 := TraceCycle] - {0} == map[1 := TraceCycle];
    assert map[1 := 1] - {1} == map[];
  }

  /** Where the trace ends: the old task is gone, the new one still runs,
      and nobody is registered. */
  const StaleEnd := Bot(TraceStore, Registry(map[], map[], 2), map[1 := TraceCycle], {}, map[])

  lemma StaleEndFacts()
    ensures 1 in StaleEnd.runs && 1 !in StaleEnd.cancelling && StaleEnd.runs[1].user == 1
    ensures !Busy(StaleEnd.registry, 1)
    ensures !Coherent(StaleEnd)
    ensures Handle(StaleEnd, StopButton(1), AsWritten).reply == NothingToStop
    ensures Handle(StaleEnd, CycleButton(1), AsWritten).reply == CycleStarted(2)
  {
    assert 1 in StaleEnd.runs && 1 !in StaleEnd.cancelling && StaleEnd.runs[1].user !in StaleEnd.registry.cycles;
  }

  /** Stop, then start again before the cancelled task has finished: when
      the old task's handler runs it removes the new cycle's entry. The new
      cycle keeps running, a stop request no longer finds it, and a further
      start is accepted beside it. */
  lemma StaleReleaseDropsNewCycle()
    ensures var b4 := Replay(Initial, [CycleButton(1), StopButton(1), CycleButton(1), PhaseEnd(0)], AsWritten);
            && 1 in b4.runs && 1 !in b4.cancelling && b4.runs[1].user == 1
            && !Busy(b4.registry, 1)
            && !Coherent(b4)
            && Handle(b4, StopButton(1), AsWritten).reply == NothingToStop
            && Handle(b4, CycleButton(1), AsWritten).reply == CycleStarted(2)
  {
    var w := AsWritten;
    var r1, r2, r3, r4 := CycleButton(1), StopButton(1), CycleButton(1), PhaseEnd(0);
    assert [r1] == [] + [r1];
    assert [r1, r2] == [r1] + [r2];
    assert [r1, r2, r3] == [r1, r2] + [r3];
    assert [r1, r2, r3, r4] == [r1, r2, r3] + [r4];
    ReplaySnoc(Initial, [], r1, w);
    ReplaySnoc(Initial, [r1], r2, w);
    ReplaySnoc(Initial, [r1, r2], r3, w);
    ReplaySnoc(Initial, [r1, r2, r3], r4, w);
    StartStep();
    StopStep();
    RestartStep();
    StaleExitStep();
    assert Replay(Initial, [r1, r2, r3, r4], w) == StaleEnd;
    StaleEndFacts();
  }

  /** The corrected build keeps the registry coherent on the same requests. */
  lemma StaleReleaseCorrected()
    ensures Coherent(Replay(Initial, [CycleButton(1), StopButton(1), CycleButton(1), PhaseEnd(0)], Corrected))
  {
    ReplayCoherent([CycleButton(1), StopButton(1), CycleButton(1), PhaseEnd(0)]);
  }

  /** The states the settings trace passes through: prompted while idle,
      then running, then (as written) with the new value stored. */
  const Prompted := Bot(TraceStore, EmptyRegistry, map[], {}, map[1 := Pomodoro])
  const PromptedAndRunning := Bot(TraceStore, Registry(map[], map[1 := 0], 1), map[0 := TraceCycle], {}, map[1 := Pomodoro])
  const ChangedWhileRunning :=
    Bot(Store(map[], map[1 := Intervals(600, ShortBreakDuration, LongBreakDuration)]),
        Registry(map[], map[1 := 0], 1), map[0 := TraceCycle], {}, map[])

  lemma SettingsTraceSteps(w: Build)
    ensures Handle(Initial, SettingsButton(1, Pomodoro), w).bot == Prompted
    ensures Handle(Prompted, CycleButton(1), w).bot == PromptedAndRunning
    ensures Handle(PromptedAndRunning, MinutesMessage(1, Some(10)), AsWritten).bot == ChangedWhileRunning
    ensures Handle(PromptedAndRunning, MinutesMessage(1, Some(10)), Corrected).bot == PromptedAndRunning
  {
    assert map[1 := Pomodoro] - {1} == map[];
  }

  lemma ChangedWhileRunningFacts()
    ensures Busy(ChangedWhileRunning.registry, 1)
    ensures IntervalsOf(ChangedWhileRunning.store, 1).pomodoro == 600
    ensures 0 in Handle(ChangedWhileRunning, PhaseEnd(0), AsWritten).bot.runs
    ensures Handle(ChangedWhileRunning, PhaseEnd(0), AsWritten).bot.runs[0].launched == [Phase(Pomodoro, 1, 600)]
  {
    var o := OnPhaseEnd(ChangedWhileRunning, 0, AsWritten);
    assert o.bot.runs[0] == Cycle(1, 1, 0, Working, [Phase(Pomodoro, 1, 600)]);
  }

  /** Open the pomodoro setting while idle, start a cycle from an older
      menu, then type a value: the source stores it although a cycle runs,
      and the cycle's first pomodoro already uses it. The corrected build
      refuses the value. */
  lemma SettingsChangeWhileBusy()
    ensures var b3 := Replay(Initial, [SettingsButton(1, Pomodoro), CycleButton(1), MinutesMessage(1, Some(10))], AsWritten);
            && Busy(b3.registry, 1)
            && IntervalsOf(b3.store, 1).pomodoro == 600
            && 0 in Handle(b3, PhaseEnd(0), AsWritten).bot.runs
            && Handle(b3, PhaseEnd(0), AsWritten).bot.runs[0].launched == [Phase(Pomodoro, 1, 600)]
    ensures var c3 := Replay(Initial, [SettingsButton(1, Pomodoro), CycleButton(1), MinutesMessage(1, Some(10))], Corrected);
            && Busy(c3.registry, 1)
            && IntervalsOf(c3.store, 1).pomodoro == 1500
  {
    var r1, r2, r3 := SettingsButton(1, Pomodoro), CycleButton(1), MinutesMessage(1, Some(10));
    assert [r1] == [] + [r1];
    assert [r1, r2] == [r1] + [r2];
    assert [r1, r2, r3] == [r1, r2] + [r3];
    SettingsTraceSteps(AsWritten);
    SettingsTraceSteps(Corrected);
    ReplaySnoc(Initial, [], r1, AsWritten);
    ReplaySnoc(Initial, [r1], r2, AsWritten);
    ReplaySnoc(Initial, [r1, r2], r3, AsWritten);
    assert Replay(Initial, [r1, r2, r3], AsWritten) == ChangedWhileRunning;
    ReplaySnoc(Initial, [], r1, Corrected);
    ReplaySnoc(Initial, [r1], r2, Corrected);
    ReplaySnoc(Initial, [r1, r2], r3, Corrected);
    assert Replay(Initial, [r1, r2, r3], Corrected) == PromptedAndRunning;
    ChangedWhileRunningFacts();
  }
}
