/** The full work/break cycle of one user as a step machine. Each step is
    what happens when the phase in progress reaches its end: either all its
    awaits returned and the loop checks whether the user's cycle is still
    registered, or a cancellation was delivered at one of them. */
module CycleScheduler {
  import opened Basics
  import opened UserState

  /** A phase the cycle started: its kind, the in-cycle pomodoro number it
      belongs to, and the duration read from the settings when it started. */
  datatype Phase = Phase(kind: Kind, number: nat, duration: int)

  /** Announcing: the opening notice is being sent, no pomodoro counted yet.
      Working: the count-th pomodoro (its notice and its countdown) is running.
      Resting: the break after the count-th pomodoro is running.
      Stopped: the loop is over; report is the count the stop message shows,
      None when the loop left without sending it. */
  datatype Stage = Announcing | Working | Resting(kind: Kind) | Stopped(report: Option<nat>)

  /** count is the source's pomodoro_count (incremented before each work
      phase); done counts the work phases that ran to their end. */
  datatype Cycle = Cycle(user: UserId, count: nat, done: nat, stage: Stage, launched: seq<Phase>)

  datatype Event = Finished(registered: bool) | Cancelled

  /** A cycle together with the store it reads and updates. */
  datatype Progress = Progress(cycle: Cycle, store: Store)

  /** The break that follows in-cycle pomodoro n. */
  function BreakAfter(n: nat): (k: Kind)
    ensures k == LongBreak <==> n % 4 == 0
    ensures k == ShortBreak <==> n % 4 != 0
  {
    if n % 4 == 0 then LongBreak else ShortBreak
  }

  /** Start of the cycle task: the intervals are read (and created if
      missing), nothing is counted yet. */
  function Launch(st: Store, u: UserId): (p: Progress)
    ensures p.cycle == Cycle(u, 0, 0, Announcing, [])
    ensures u in p.store.intervals
    ensures IntervalsOf(p.store, u) == IntervalsOf(st, u)
    ensures forall v :: StatsOf(p.store, v) == StatsOf(st, v)
    ensures Good(st) ==> Good(p.store)
  {
    Progress(Cycle(u, 0, 0, Announcing, []), GetIntervals(st, u).store)
  }

  /** The number the stop message reports. The source shows pomodoro_count,
      which includes a work phase interrupted part-way; the corrected build
      reports the work phases that were completed. */
  function Report(c: Cycle, b: Build): (r: nat)
    ensures b == AsWritten ==> r == c.count
    ensures c.done <= c.count ==> c.done <= r <= c.count
  {
    if b == AsWritten then c.count else c.done
  }

  /** The next pomodoro starts: the counter goes up first, and the phase
      takes the user's current pomodoro duration. */
  function StartWork(c: Cycle, st: Store): (p: Progress)
    ensures p.cycle.count == c.count + 1 && p.cycle.stage == Working
    ensures p.cycle.launched == c.launched + [Phase(Pomodoro, p.cycle.count, IntervalsOf(st, c.user).pomodoro)]
    ensures p.cycle.user == c.user && p.cycle.done == c.done && p.store == st
  {
    var n := c.count + 1;
    var phase := Phase(Pomodoro, n, IntervalsOf(st, c.user).pomodoro);
    Progress(c.(count := n, stage := Working, launched := c.launched + [phase]), st)
  }

  /** The break after the count-th pomodoro starts: long after every fourth,
      short otherwise, with the user's current duration for that kind. */
  function StartBreak(c: Cycle, st: Store): (p: Progress)
    ensures p.cycle.stage.Resting? && (p.cycle.stage.kind == LongBreak <==> c.count % 4 == 0)
    ensures var k := p.cycle.stage.kind;
            p.cycle.launched == c.launched + [Phase(k, c.count, Duration(IntervalsOf(st, c.user), k))]
    ensures p.cycle.user == c.user && p.cycle.count == c.count && p.cycle.done == c.done && p.store == st
  {
    var k := BreakAfter(c.count);
    var phase := Phase(k, c.count, Duration(IntervalsOf(st, c.user), k));
    Progress(c.(stage := Resting(k), launched := c.launched + [phase]), st)
  }

  function Halt(c: Cycle, st: Store, report: Option<nat>): Progress
  {
    Progress(c.(stage := Stopped(report)), st)
  }

  /** One step of the loop of the cycle task. */
  function Step(p: Progress, e: Event, b: Build): (q: Progress)
    ensures p.cycle.stage.Stopped? ==> q == p
    ensures e == Finished(false) ==> q.cycle.stage.Stopped? && q.cycle.launched == p.cycle.launched
    ensures e == Cancelled && !p.cycle.stage.Stopped? ==>
              q == Progress(p.cycle.(stage := Stopped(Some(Report(p.cycle, b)))), p.store)
    ensures q.cycle.user == p.cycle.user
    ensures q.store.intervals == p.store.intervals
    ensures p.cycle.launched <= q.cycle.launched && |q.cycle.launched| <= |p.cycle.launched| + 1
  {
    var c, st := p.cycle, p.store;
    match c.stage
    case Stopped(_) => p
    case Announcing =>
      (match e
       case Cancelled => Halt(c, st, Some(Report(c, b)))
       case Finished(registered) =>
         if registered then StartWork(c, st) else Halt(c, st, None))
    case Working =>
      (match e
       case Cancelled => Halt(c, st, Some(Report(c, b)))
       case Finished(registered) =>
         var st' := Complete(st, c.user, Tag(Pomodoro)).store;
         var c' := c.(done := c.done + 1);
         if registered then StartBreak(c', st') else Halt(c', st', None))
    case Resting(k) =>
      (match e
       case Cancelled => Halt(c, st, Some(Report(c, b)))
       case Finished(registered) =>
         var st' := Complete(st, c.user, Tag(k)).store;
         if registered then StartWork(c, st') else Halt(c, st', None))
  }

  /** A cycle writes only its own user's statistics. */
  lemma StepTouchesOwnStatsOnly(p: Progress, e: Event, b: Build, v: UserId)
    requires v != p.cycle.user
    ensures StatsOf(Step(p, e, b).store, v) == StatsOf(p.store, v)
  {
  }

  /** The cycle after a sequence of phase ends. */
  function Run(p: Progress, events: seq<Event>, b: Build): Progress
    decreases |events|
  {
    if |events| == 0 then p else Step(Run(p, events[..|events| - 1], b), events[|events| - 1], b)
  }

  lemma RunSnoc(p: Progress, events: seq<Event>, e: Event, b: Build)
    ensures Run(p, events + [e], b) == Step(Run(p, events, b), e, b)
  {
    assert (events + [e])[..|events|] == events;
  }

  /** Once stopped, a cycle starts no further phase and changes nothing. */
  lemma {:induction false} NothingAfterStop(p: Progress, events: seq<Event>, b: Build)
    requires p.cycle.stage.Stopped?
    ensures Run(p, events, b) == p
    decreases |events|
  {
    if |events| > 0 {
      NothingAfterStop(p, events[..|events| - 1], b);
    }
  }

  lemma {:induction false} RunAppend(p: Progress, xs: seq<Event>, ys: seq<Event>, b: Build)
    ensures Run(p, xs + ys, b) == Run(Run(p, xs, b), ys, b)
    decreases |ys|
  {
    if |ys| == 0 {
      assert xs + ys == xs;
    } else {
      var init := ys[..|ys| - 1];
      var last := ys[|ys| - 1];
      assert ys == init + [last];
      assert xs + ys == (xs + init) + [last];
      RunAppend(p, xs, init, b);
      RunSnoc(p, xs + init, last, b);
      RunSnoc(Run(p, xs, b), init, last, b);
    }
  }

  /** A membership check that finds the user gone ends the cycle at once,
      and no event after it starts a phase. */
  lemma DeregisteredCycleStops(p: Progress, before: seq<Event>, after: seq<Event>, b: Build)
    ensures Run(p, before + [Finished(false)] + after, b).cycle.stage.Stopped?
    ensures Run(p, before + [Finished(false)] + after, b).cycle.launched == Run(p, before, b).cycle.launched
  {
    RunSnoc(p, before, Finished(false), b);
    var q := Run(p, before + [Finished(false)], b);
    RunAppend(p, before + [Finished(false)], after, b);
    NothingAfterStop(q, after, b);
  }

  // ------------------------------------------------------ reachable states

  function WorkPhases(s: seq<Phase>): nat
  {
    if |s| == 0 then 0
    else WorkPhases(s[..|s| - 1]) + (if s[|s| - 1].kind == Pomodoro then 1 else 0)
  }

  lemma WorkPhasesAppend(s: seq<Phase>, x: Phase)
    ensures WorkPhases(s + [x]) == WorkPhases(s) + (if x.kind == Pomodoro then 1 else 0)
  {
    assert (s + [x])[..|s|] == s;
  }

  /** What holds of every cycle the loop can reach, given the pomodoro count
      `base` that the user's stats held when the cycle was launched. */
  ghost predicate Reachable(p: Progress, b: Build, base: nat)
  {
    var c := p.cycle;
    && c.count == WorkPhases(c.launched)
    && StatsOf(p.store, c.user).pomodoros == base + c.done
    && (c.stage == Announcing ==> c.count == 0 && c.done == 0)
    && (c.stage == Working ==> c.count >= 1 && c.done == c.count - 1)
    && (c.stage.Resting? ==> c.count >= 1 && c.done == c.count && c.stage.kind == BreakAfter(c.count))
    && (c.stage.Stopped? ==> c.done <= c.count)
    && (c.stage.Stopped? && c.stage.report.Some? ==> c.stage.report.value == Report(c, b))
  }

  lemma StepReachable(p: Progress, e: Event, b: Build, base: nat)
    requires Reachable(p, b, base)
    ensures Reachable(Step(p, e, b), b, base)
  {
    match p.cycle.stage
    case Stopped(_) =>
    case Announcing => AnnouncingReachable(p, e, b, base);
    case Working => WorkingReachable(p, e, b, base);
    case Resting(k) => RestingReachable(p, e, b, base);
  }

  lemma AnnouncingReachable(p: Progress, e: Event, b: Build, base: nat)
    requires Reachable(p, b, base) && p.cycle.stage == Announcing
    ensures Reachable(Step(p, e, b), b, base)
  {
    var c := p.cycle;
    if e == Finished(true) {
      var phase := Phase(Pomodoro, 1, IntervalsOf(p.store, c.user).pomodoro);
      assert Step(p, e, b) == Progress(c.(count := 1, stage := Working, launched := c.launched + [phase]), p.store);
      WorkPhasesAppend(c.launched, phase);
    }
  }

  lemma WorkingReachable(p: Progress, e: Event, b: Build, base: nat)
    requires Reachable(p, b, base) && p.cycle.stage == Working
    ensures Reachable(Step(p, e, b), b, base)
  {
    var c := p.cycle;
    if e.Finished? {
      var st' := Complete(p.store, c.user, Tag(Pomodoro)).store;
      assert StatsOf(st', c.user).pomodoros == StatsOf(p.store, c.user).pomodoros + 1;
      if e.registered {
        var k := BreakAfter(c.count);
        var phase := Phase(k, c.count, Duration(IntervalsOf(st', c.user), k));
        assert Step(p, e, b) == Progress(c.(done := c.done + 1, stage := Resting(k), launched := c.launched + [phase]), st');
        WorkPhasesAppend(c.launched, phase);
      }
    }
  }

  lemma RestingReachable(p: Progress, e: Event, b: Build, base: nat)
    requires Reachable(p, b, base) && p.cycle.stage.Resting?
    ensures Reachable(Step(p, e, b), b, base)
  {
    var c := p.cycle;
    if e.Finished? {
      var st' := Complete(p.store, c.user, Tag(c.stage.kind)).store;
      assert c.stage.kind != Pomodoro;
      assert StatsOf(st', c.user).pomodoros == StatsOf(p.store, c.user).pomodoros;
      if e.registered {
        var phase := Phase(Pomodoro, c.count + 1, IntervalsOf(st', c.user).pomodoro);
        assert Step(p, e, b) == Progress(c.(count := c.count + 1, stage := Working, launched := c.launched + [phase]), st');
        WorkPhasesAppend(c.launched, phase);
      }
    }
  }

  lemma {:induction false} RunReachable(p: Progress, events: seq<Event>, b: Build, base: nat)
    requires Reachable(p, b, base)
    ensures Reachable(Run(p, events, b), b, base)
    ensures Run(p, events, b).cycle.user == p.cycle.user
    decreases |events|
  {
    if |events| > 0 {
      var init := events[..|events| - 1];
      RunReachable(p, init, b, base);
      StepReachable(Run(p, init, b), events[|events| - 1], b, base);
    }
  }

  /** The source's stop message reports how many work phases the cycle
      started, since the counter goes up before each one. */
  lemma ReportCountsStartedWork(st: Store, u: UserId, events: seq<Event>, r: nat)
    requires Run(Launch(st, u), events, AsWritten).cycle.stage == Stopped(Some(r))
    ensures r == WorkPhases(Run(Launch(st, u), events, AsWritten).cycle.launched)
  {
    RunReachable(Launch(st, u), events, AsWritten, StatsOf(st, u).pomodoros);
  }

  /** The corrected report equals the pomodoros the cycle added to the
      user's statistics. */
  lemma CorrectedReportCountsCompletions(st: Store, u: UserId, events: seq<Event>, r: nat)
    requires Run(Launch(st, u), events, Corrected).cycle.stage == Stopped(Some(r))
    ensures StatsOf(Run(Launch(st, u), events, Corrected).store, u).pomodoros == StatsOf(st, u).pomodoros + r
  {
    RunReachable(Launch(st, u), events, Corrected, StatsOf(st, u).pomodoros);
  }

  /** Cancelled during the first pomodoro, the source reports one pomodoro
      completed although none was recorded. */
  lemma InterruptedWorkIsReported()
    ensures Run(Launch(EmptyStore, 7), [Finished(true), Cancelled], AsWritten).cycle.stage == Stopped(Some(1))
    ensures StatsOf(Run(Launch(EmptyStore, 7), [Finished(true), Cancelled], AsWritten).store, 7).pomodoros == 0
  {
    var p0 := Launch(EmptyStore, 7);
    RunSnoc(p0, [], Finished(true), AsWritten);
    assert [Finished(true), Cancelled] == [Finished(true)] + [Cancelled];
    RunSnoc(p0, [Finished(true)], Cancelled, AsWritten);
  }

  // --------------------------------------------------- uninterrupted rounds

  /** The phases of n uninterrupted rounds under fixed intervals: each work
      phase followed by the break BreakAfter selects for its number. */
  function Rounds(iv: Intervals, n: nat): (s: seq<Phase>)
    ensures |s| == 2 * n
  {
    if n == 0 then []
    else Rounds(iv, n - 1) + [Phase(Pomodoro, n, iv.pomodoro), Phase(BreakAfter(n), n, Duration(iv, BreakAfter(n)))]
  }

  function Repeat(e: Event, k: nat): (s: seq<Event>)
    ensures |s| == k
  {
    seq(k, _ => e)
  }

  /** A work phase that runs to its end, with the user still registered. */
  lemma WorkFinishes(p: Progress, b: Build)
    requires p.cycle.stage == Working
    ensures Step(p, Finished(true), b)
            == StartBreak(p.cycle.(done := p.cycle.done + 1), Complete(p.store, p.cycle.user, Tag(Pomodoro)).store)
  {
  }

  /** A break that runs to its end, with the user still registered. */
  lemma BreakFinishes(p: Progress, b: Build)
    requires p.cycle.stage.Resting?
    ensures Step(p, Finished(true), b) == StartWork(p.cycle, Complete(p.store, p.cycle.user, Tag(p.cycle.stage.kind)).store)
  {
  }

  /** One uninterrupted round from inside the n-th pomodoro: it completes,
      the break BreakAfter(n) runs and completes, and pomodoro n+1 starts. */
  lemma OneRound(p: Progress, b: Build)
    requires p.cycle.stage == Working
    ensures var u, n, iv := p.cycle.user, p.cycle.count, IntervalsOf(p.store, p.cycle.user);
            var r := Step(Step(p, Finished(true), b), Finished(true), b);
            && r.cycle.count == n + 1
            && r.cycle.stage == Working
            && r.cycle.launched == p.cycle.launched + [Phase(BreakAfter(n), n, Duration(iv, BreakAfter(n))), Phase(Pomodoro, n + 1, iv.pomodoro)]
            && IntervalsOf(r.store, u) == iv
            && StatsOf(r.store, u) == RecordCompletion(RecordCompletion(StatsOf(p.store, u), Pomodoro), BreakAfter(n))
  {
    var c, u, iv := p.cycle, p.cycle.user, IntervalsOf(p.store, p.cycle.user);
    var k := BreakAfter(c.count);
    WorkFinishes(p, b);
    var q := Step(p, Finished(true), b);
    assert IntervalsOf(q.store, u) == iv && q.cycle.user == u && q.cycle.stage.kind == k;
    BreakFinishes(q, b);
    var r := Step(q, Finished(true), b);
    assert r.cycle.launched == (c.launched + [Phase(k, c.count, Duration(iv, k))]) + [Phase(Pomodoro, c.count + 1, iv.pomodoro)];
  }

  /** The state after the opening notice and n uninterrupted rounds of a
      cycle that user u launched on store st. */
  ghost predicate AfterRounds(p: Progress, st: Store, u: UserId, n: nat)
  {
    var iv, s0, s := IntervalsOf(st, u), StatsOf(st, u), StatsOf(p.store, u);
    && p.cycle.user == u
    && p.cycle.count == n + 1
    && p.cycle.stage == Working
    && p.cycle.launched == Rounds(iv, n) + [Phase(Pomodoro, n + 1, iv.pomodoro)]
    && IntervalsOf(p.store, u) == iv
    && s.pomodoros == s0.pomodoros + n
    && s.longBreaks == s0.longBreaks + n / 4
    && s.shortBreaks == s0.shortBreaks + (n - n / 4)
  }

  lemma NextRound(p: Progress, st: Store, u: UserId, n: nat, b: Build)
    requires AfterRounds(p, st, u, n)
    ensures AfterRounds(Step(Step(p, Finished(true), b), Finished(true), b), st, u, n + 1)
  {
    OneRound(p, b);
    var iv := IntervalsOf(st, u);
    var m := n + 1;
    var k := BreakAfter(m);
    assert Rounds(iv, m) + [Phase(Pomodoro, m + 1, iv.pomodoro)]
        == (Rounds(iv, n) + [Phase(Pomodoro, m, iv.pomodoro)]) + [Phase(k, m, Duration(iv, k)), Phase(Pomodoro, m + 1, iv.pomodoro)];
    if m % 4 == 0 {
      assert m / 4 == n / 4 + 1;
    } else {
      assert m / 4 == n / 4;
    }
  }

  /** After the opening notice and n uninterrupted work+break rounds the
      cycle is in pomodoro n+1, has started exactly the phases of Rounds,
      and the user's counters rose by n pomodoros, n/4 long breaks and
      n - n/4 short breaks. */
  lemma {:induction false} UninterruptedRounds(st: Store, u: UserId, n: nat, b: Build)
    ensures AfterRounds(Run(Launch(st, u), Repeat(Finished(true), 1 + 2 * n), b), st, u, n)
    decreases n
  {
    var f := Finished(true);
    if n == 0 {
      var p0 := Launch(st, u);
      assert Repeat(f, 1) == [] + [f];
      RunSnoc(p0, [], f, b);
    } else {
      var m := n - 1;
      UninterruptedRounds(st, u, m, b);
      var xs := Repeat(f, 1 + 2 * m);
      assert Repeat(f, 1 + 2 * n) == (xs + [f]) + [f];
      RunSnoc(Launch(st, u), xs, f, b);
      RunSnoc(Launch(st, u), xs + [f], f, b);
      NextRound(Run(Launch(st, u), xs, b), st, u, m, b);
    }
  }
}
