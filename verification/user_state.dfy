/** Per-user statistics and interval settings, created lazily on first access. */
module UserState {
  import opened Basics

  type UserId = int

  /** Default durations in seconds: 25, 5 and 15 minutes. */
  const PomodoroDuration: int := 25 * 60
  const ShortBreakDuration: int := 5 * 60
  const LongBreakDuration: int := 15 * 60

  datatype Kind = Pomodoro | ShortBreak | LongBreak

  /** The interval-type string the source passes between its functions. */
  function Tag(k: Kind): string
  {
    match k
    case Pomodoro => "pomodoro"
    case ShortBreak => "short_break"
    case LongBreak => "long_break"
  }

  /** How the source reads an interval-type string: the two named tags, and
      every other string as a long break. */
  function KindOf(tag: string): (k: Kind)
    ensures k == Pomodoro <==> tag == Tag(Pomodoro)
    ensures k == ShortBreak <==> tag == Tag(ShortBreak)
    ensures k == LongBreak <==> tag != Tag(Pomodoro) && tag != Tag(ShortBreak)
  {
    if tag == "pomodoro" then Pomodoro
    else if tag == "short_break" then ShortBreak
    else LongBreak
  }

  lemma TagRoundTrip(k: Kind)
    ensures KindOf(Tag(k)) == k
  {
  }

  // ---------------------------------------------------------------- stats

  datatype Stats = Stats(pomodoros: nat, shortBreaks: nat, longBreaks: nat)

  const FreshStats := Stats(0, 0, 0)

  /** The counter that completions of kind k advance. */
  function Count(s: Stats, k: Kind): nat
  {
    match k
    case Pomodoro => s.pomodoros
    case ShortBreak => s.shortBreaks
    case LongBreak => s.longBreaks
  }

  function Total(s: Stats): nat
  {
    s.pomodoros + s.shortBreaks + s.longBreaks
  }

  /** A finished interval of kind k: exactly that counter goes up by one. */
  function RecordCompletion(s: Stats, k: Kind): (r: Stats)
    ensures Count(r, k) == Count(s, k) + 1
    ensures forall j: Kind :: j != k ==> Count(r, j) == Count(s, j)
    ensures Total(r) == Total(s) + 1
  {
    match k
    case Pomodoro => s.(pomodoros := s.pomodoros + 1)
    case ShortBreak => s.(shortBreaks := s.shortBreaks + 1)
    case LongBreak => s.(longBreaks := s.longBreaks + 1)
  }

  /** What the completion text says, without its wording: for a finished
      pomodoro the lifetime session count and whether a long break is
      recommended; for a finished break only the invitation to continue. */
  datatype Notice = WorkDone(sessions: nat, suggestLongBreak: bool) | BreakDone

  function CompletionNotice(after: Stats, k: Kind): (n: Notice)
    ensures n.WorkDone? <==> k == Pomodoro
    ensures n.WorkDone? ==> n.sessions == after.pomodoros
    ensures n.WorkDone? ==> (n.suggestLongBreak <==> after.pomodoros % 4 == 0)
  {
    if k == Pomodoro then WorkDone(after.pomodoros, after.pomodoros % 4 == 0)
    else BreakDone
  }

  /** Stats after n further stand-alone pomodoros. */
  function AfterPomodoros(s: Stats, n: nat): Stats
  {
    if n == 0 then s else RecordCompletion(AfterPomodoros(s, n - 1), Pomodoro)
  }

  /** After n further pomodoros only the pomodoro counter has moved, and the
      long-break hint of the last of them depends on the lifetime total, not
      on how many were finished in this run. */
  lemma {:induction false} LongBreakHintFollowsLifetimeCount(s: Stats, n: nat)
    requires n >= 1
    ensures AfterPomodoros(s, n).pomodoros == s.pomodoros + n
    ensures AfterPomodoros(s, n).shortBreaks == s.shortBreaks
    ensures AfterPomodoros(s, n).longBreaks == s.longBreaks
    ensures CompletionNotice(AfterPomodoros(s, n), Pomodoro).suggestLongBreak
            <==> (s.pomodoros + n) % 4 == 0
  {
    if n > 1 {
      LongBreakHintFollowsLifetimeCount(s, n - 1);
    }
  }

  // ------------------------------------------------------------ intervals

  datatype Intervals = Intervals(pomodoro: int, shortBreak: int, longBreak: int)

  const DefaultIntervals := Intervals(PomodoroDuration, ShortBreakDuration, LongBreakDuration)

  /** The configured duration, in seconds, of intervals of kind k. */
  function Duration(iv: Intervals, k: Kind): int
  {
    match k
    case Pomodoro => iv.pomodoro
    case ShortBreak => iv.shortBreak
    case LongBreak => iv.longBreak
  }

  function WithDuration(iv: Intervals, k: Kind, seconds: int): (r: Intervals)
    ensures Duration(r, k) == seconds
    ensures forall j: Kind :: j != k ==> Duration(r, j) == Duration(iv, j)
  {
    match k
    case Pomodoro => iv.(pomodoro := seconds)
    case ShortBreak => iv.(shortBreak := seconds)
    case LongBreak => iv.(longBreak := seconds)
  }

  /** Every duration is a positive number of whole minutes: the defaults are,
      and an accepted update stores minutes times sixty. */
  ghost predicate Valid(iv: Intervals)
  {
    forall k: Kind :: Duration(iv, k) > 0 && Duration(iv, k) % 60 == 0
  }

  /** The whole minutes the menus show for a duration in seconds (Python's
      floor division by 60; Dafny's division agrees for a positive divisor). */
  function Minutes(seconds: int): int
  {
    seconds / 60
  }

  lemma MinutesRoundTrip(minutes: int)
    ensures Minutes(minutes * 60) == minutes
  {
  }

  // ---------------------------------------------------------------- store

  /** The two per-user dictionaries of the source. */
  datatype Store = Store(stats: map<UserId, Stats>, intervals: map<UserId, Intervals>)

  const EmptyStore := Store(map[], map[])

  ghost predicate Good(st: Store)
  {
    forall u :: u in st.intervals ==> Valid(st.intervals[u])
  }

  /** The record an access for u yields: the stored one, or the defaults. */
  function StatsOf(st: Store, u: UserId): Stats
  {
    if u in st.stats then st.stats[u] else FreshStats
  }

  function IntervalsOf(st: Store, u: UserId): Intervals
  {
    if u in st.intervals then st.intervals[u] else DefaultIntervals
  }

  /** An access returns a record and the store it leaves behind. */
  datatype Access<T> = Access(store: Store, value: T)

  /** Read u's statistics, storing zeroed counters on the first access. */
  function GetStats(st: Store, u: UserId): (a: Access<Stats>)
    ensures a.store.stats == st.stats[u := a.value]
    ensures a.store.intervals == st.intervals
    ensures u in st.stats ==> a.value == st.stats[u] && a.store == st
    ensures u !in st.stats ==> a.value == Stats(0, 0, 0)
  {
    if u in st.stats then Access(st, st.stats[u])
    else Access(st.(stats := st.stats[u := FreshStats]), FreshStats)
  }

  /** Read u's intervals, storing the defaults on the first access. */
  function GetIntervals(st: Store, u: UserId): (a: Access<Intervals>)
    ensures a.store.intervals == st.intervals[u := a.value]
    ensures a.store.stats == st.stats
    ensures u in st.intervals ==> a.value == st.intervals[u] && a.store == st
    ensures u !in st.intervals ==> a.value == Intervals(1500, 300, 900)
    ensures Good(st) ==> Good(a.store)
  {
    if u in st.intervals then Access(st, st.intervals[u])
    else
      assert Valid(DefaultIntervals) by {
        forall k: Kind ensures Duration(DefaultIntervals, k) > 0 && Duration(DefaultIntervals, k) % 60 == 0 {
        }
      }
      Access(st.(intervals := st.intervals[u := DefaultIntervals]), DefaultIntervals)
  }

  /** A later access returns the very record the first one stored, and
      changes nothing more. */
  lemma AccessIsStable(st: Store, u: UserId)
    ensures GetStats(GetStats(st, u).store, u) == Access(GetStats(st, u).store, GetStats(st, u).value)
    ensures GetIntervals(GetIntervals(st, u).store, u) == Access(GetIntervals(st, u).store, GetIntervals(st, u).value)
    ensures GetStats(st, u).value == StatsOf(st, u)
    ensures GetIntervals(st, u).value == IntervalsOf(st, u)
  {
  }

  /** The stats update at the end of a countdown, as an operation on the
      store: u's record (lazily created) gets the completion of the interval
      named by tag, and the notice is built from the updated record. */
  datatype Completion = Completion(store: Store, notice: Notice)

  function Complete(st: Store, u: UserId, tag: string): (c: Completion)
    ensures StatsOf(c.store, u) == RecordCompletion(StatsOf(st, u), KindOf(tag))
    ensures forall v :: v != u ==> StatsOf(c.store, v) == StatsOf(st, v)
    ensures c.store.intervals == st.intervals
    ensures c.notice == CompletionNotice(StatsOf(c.store, u), KindOf(tag))
  {
    // get_user_stats may create the record first; it is overwritten at once.
    var s := RecordCompletion(StatsOf(st, u), KindOf(tag));
    Completion(st.(stats := st.stats[u := s]), CompletionNotice(s, KindOf(tag)))
  }

  // ------------------------------------------------------- interval update

  /** Result of a typed-in interval value. The text arrives already parsed:
      None when it is not an integer. */
  datatype Update = Accepted(store: Store) | NotANumber | NotPositive

  /** Validation and storage of a new duration for kind k, given in minutes.
      The positivity check comes before the intervals are read, so a rejected
      value does not even create u's record. */
  function SubmitMinutes(st: Store, u: UserId, k: Kind, parsed: Option<int>): (r: Update)
    ensures r.NotANumber? <==> parsed.None?
    ensures r.NotPositive? <==> parsed.Some? && parsed.value <= 0
    ensures r.Accepted? ==>
              && Duration(IntervalsOf(r.store, u), k) == parsed.value * 60
              && Minutes(Duration(IntervalsOf(r.store, u), k)) == parsed.value
              && (forall j: Kind :: j != k ==> Duration(IntervalsOf(r.store, u), j) == Duration(IntervalsOf(st, u), j))
              && (forall v :: v != u ==> IntervalsOf(r.store, v) == IntervalsOf(st, v))
              && r.store.stats == st.stats
    ensures r.Accepted? && Good(st) ==> Good(r.store)
  {
    match parsed
    case None => NotANumber
    case Some(value) =>
      if value <= 0 then NotPositive
      else
        var a := GetIntervals(st, u);
        var iv := WithDuration(a.value, k, value * 60);
        assert Good(st) ==> Valid(iv) by {
          if Good(st) {
            assert Valid(a.value);
            forall j: Kind ensures Duration(iv, j) > 0 && Duration(iv, j) % 60 == 0 {
              if j != k {
                assert Duration(iv, j) == Duration(a.value, j);
              }
            }
          }
        }
        Accepted(a.store.(intervals := a.store.intervals[u := iv]))
  }

  lemma {:induction false} ProductAtLeast(n: nat, d: int)
    requires n >= 1 && d > 0
    ensures n * d >= d
    decreases n
  {
    if n > 1 {
      ProductAtLeast(n - 1, d);
      assert n * d == (n - 1) * d + d;
    }
  }

  /** The total work time line of the statistics view: present only once a
      pomodoro has been completed, and then the count times the current
      pomodoro duration. */
  function WorkTime(s: Stats, iv: Intervals): (r: Option<int>)
    ensures r.Some? <==> s.pomodoros > 0
    ensures r.Some? && Valid(iv) ==> r.value >= iv.pomodoro > 0
  {
    if s.pomodoros > 0 then
      var total := s.pomodoros * iv.pomodoro;
      assert Valid(iv) ==> total >= iv.pomodoro > 0 by {
        if Valid(iv) {
          assert Duration(iv, Pomodoro) > 0;
          ProductAtLeast(s.pomodoros, iv.pomodoro);
        }
      }
      Some(total)
    else None
  }

  /** The partner of WorkTime: each completed pomodoro adds exactly one
      current pomodoro duration to the total, and a completed break adds
      nothing. With no pomodoro there is no total, so the line always shows
      the count times the pomodoro duration. */
  lemma WorkTimeAddsOnePomodoro(s: Stats, iv: Intervals)
    ensures WorkTime(RecordCompletion(s, Pomodoro), iv)
            == Some((if s.pomodoros == 0 then 0 else WorkTime(s, iv).value) + iv.pomodoro)
    ensures WorkTime(RecordCompletion(s, ShortBreak), iv) == WorkTime(s, iv)
    ensures WorkTime(RecordCompletion(s, LongBreak), iv) == WorkTime(s, iv)
  {
    var n := s.pomodoros;
    assert (n + 1) * iv.pomodoro == n * iv.pomodoro + iv.pomodoro;
  }
}
