/** The schedule of automated reminders to one recipient. Times are milliseconds. */
module Reminders {
  import opened Wrappers

  datatype DurationUnit = Day | Week | Month

  /** At least one whole unit, as the settings schema demands. */
  type Amount = n: int | n >= 1 witness 1

  datatype Period = Every(timeUnit: DurationUnit, amount: Amount) | Disabled

  datatype Settings = Settings(sendAfter: Period, repeatEvery: Period)

  const DAY: int := 24 * 60 * 60 * 1000
  const MAX_REMINDER_WINDOW_DAYS := 30
  const MAX_REMINDERS_BEFORE_RESEND := 5
  const WINDOW: int := MAX_REMINDER_WINDOW_DAYS * DAY

  function DaysOf(timeUnit: DurationUnit): int {
    match timeUnit
    case Day => 1
    case Week => 7
    case Month => 30
  }

  function Millis(period: Period): (ms: int)
    requires period.Every?
    ensures ms >= DAY
  {
    DaysOf(period.timeUnit) * period.amount * DAY
  }

  /** What is stored of a recipient: when the request and the last reminder went out, and how many reminders did. */
  datatype State = State(sentAt: int, lastReminderSentAt: Option<int>, reminderCount: nat)

  function ResolveNextReminderAt(config: Option<Settings>, s: State): Option<int> {
    if config.None? then None
    else if s.reminderCount >= MAX_REMINDERS_BEFORE_RESEND then None
    else
      var maxReminderAt := s.sentAt + WINDOW;
      var candidate :=
        match s.lastReminderSentAt
        case None =>
          if config.value.sendAfter.Disabled? then None else Some(s.sentAt + Millis(config.value.sendAfter))
        case Some(last) =>
          if config.value.repeatEvery.Disabled? then None else Some(last + Millis(config.value.repeatEvery));
      if candidate.Some? && candidate.value > maxReminderAt then None else candidate
  }

  /** A reminder has gone out at time `at`. */
  function Sent(s: State, at: int): State {
    s.(lastReminderSentAt := Some(at), reminderCount := s.reminderCount + 1)
  }

  /** The request has been sent, or sent again by hand: the count starts afresh. */
  function Fresh(sentAt: int): State {
    State(sentAt, None, 0)
  }

  // ----- every reminder goes out on time -----

  /** The due times from state `s` on when each reminder goes out exactly when it is due. */
  function Schedule(config: Option<Settings>, s: State): seq<int>
    decreases MAX_REMINDERS_BEFORE_RESEND - s.reminderCount
  {
    match ResolveNextReminderAt(config, s)
    case None => []
    case Some(due) => [due] + Schedule(config, Sent(s, due))
  }

  function MinNat(a: nat, b: nat): nat {
    if a <= b then a else b
  }

  lemma AtLeastOnce(r: int, d: int)
    requires r > 0 && d >= 1
    ensures r * d >= r
  {
  }

  lemma QuotientIsUnique(r: int, p: int, m: int, q: int, n: int)
    requires 0 <= m < r && 0 <= n < r && r * p + m == r * q + n
    ensures p == q
  {
    Distribute(r, p, q);
    if p > q {
      AtLeastOnce(r, p - q);
    } else if p < q {
      Distribute(r, q, p);
      AtLeastOnce(r, q - p);
    }
  }

  lemma Distribute(r: int, p: int, q: int)
    ensures r * (p - q) == r * p - r * q
  {
  }

  lemma QuotientStep(room: int, r: int)
    requires r > 0 && room >= 0
    ensures room >= r ==> room / r == 1 + (room - r) / r
    ensures room < r ==> room / r == 0
  {
    QuotientOf(room, r);
    if room >= r {
      QuotientOf(room - r, r);
      var q, m := (room - r) / r, (room - r) % r;
      assert r * (q + 1) == r * q + r;
      QuotientIsUnique(r, room / r, room % r, q + 1, m);
    } else {
      QuotientIsUnique(r, room / r, room % r, 0, room);
    }
  }

  lemma QuotientOf(n: int, r: int)
    requires r > 0
    ensures r * (n / r) + n % r == n && 0 <= n % r < r
  {
  }

  lemma NotNegative(r: int, q: int)
    requires r > 0 && r * q > -r
    ensures q >= 0
  {
    if q < 0 {
      AtLeastOnce(r, -q);
      assert false;
    }
  }

  lemma QuotientNotNegative(room: int, r: int)
    requires room >= 0 && r > 0
    ensures room / r >= 0
  {
    QuotientOf(room, r);
    NotNegative(r, room / r);
  }

  /** How many times `r` fits into `room`. */
  function Fits(room: int, r: int): (n: nat)
    requires room >= 0 && r > 0
  {
    QuotientNotNegative(room, r);
    room / r
  }

  /** How many reminders a fresh request gets. */
  function Total(config: Option<Settings>): nat {
    if config.None? || config.value.sendAfter.Disabled? || Millis(config.value.sendAfter) > WINDOW then 0
    else if config.value.repeatEvery.Disabled? then 1
    else MinNat(MAX_REMINDERS_BEFORE_RESEND,
                1 + Fits(WINDOW - Millis(config.value.sendAfter), Millis(config.value.repeatEvery)))
  }

  /** The due time of reminder `k`, counted from 0. */
  function Due(config: Settings, sentAt: int, k: nat): int
    requires config.sendAfter.Every? && (k > 0 ==> config.repeatEvery.Every?)
  {
    sentAt + Millis(config.sendAfter) + (if k == 0 then 0 else k * Millis(config.repeatEvery))
  }

  /** The times `from`, `from + r`, `from + 2 r` and so on. */
  ghost predicate Spaced(times: seq<int>, from: int, r: int) {
    forall k :: 0 <= k < |times| ==> times[k] == from + k * r
  }

  lemma SpacedCons(times: seq<int>, from: int, r: int)
    requires Spaced(times, from + r, r)
    ensures Spaced([from] + times, from, r)
  {
    var all := [from] + times;
    forall k | 0 <= k < |all|
      ensures all[k] == from + k * r
    {
      if k > 0 {
        assert all[k] == times[k - 1] == from + r + (k - 1) * r;
        Distribute(r, k, 1);
      }
    }
  }

  /** From the moment a reminder has gone out at `last`, further ones follow every `r` while there is room. */
  lemma {:induction false} Repeats(config: Settings, s: State, last: int)
    requires config.repeatEvery.Every? && s.lastReminderSentAt == Some(last) && last <= s.sentAt + WINDOW
    requires s.reminderCount <= MAX_REMINDERS_BEFORE_RESEND
    ensures var due, r := Schedule(Some(config), s), Millis(config.repeatEvery);
            && |due| == MinNat(MAX_REMINDERS_BEFORE_RESEND - s.reminderCount, Fits(s.sentAt + WINDOW - last, r))
            && Spaced(due, last + r, r)
    decreases MAX_REMINDERS_BEFORE_RESEND - s.reminderCount
  {
    var r := Millis(config.repeatEvery);
    QuotientStep(s.sentAt + WINDOW - last, r);
    if s.reminderCount < MAX_REMINDERS_BEFORE_RESEND && last + r <= s.sentAt + WINDOW {
      Repeats(config, Sent(s, last + r), last + r);
      SpacedCons(Schedule(Some(config), Sent(s, last + r)), last + r, r);
    }
  }

  /**
   * Reminder `k` of a fresh request falls at sentAt + a + k * r; there are as many as fit into the window, but at
   * most five, and none when the first would already be too late.
   */
  lemma ScheduleIsExact(config: Option<Settings>, sentAt: int)
    ensures var due := Schedule(config, Fresh(sentAt));
            && |due| == Total(config)
            && forall k :: 0 <= k < |due| ==>
                 config.Some? && config.value.sendAfter.Every? && (k > 0 ==> config.value.repeatEvery.Every?) &&
                 due[k] == Due(config.value, sentAt, k)
  {
    var s := Fresh(sentAt);
    var next := ResolveNextReminderAt(config, s);
    if next.Some? {
      var first := next.value;
      var t := Sent(s, first);
      if config.value.repeatEvery.Every? {
        var r := Millis(config.value.repeatEvery);
        Repeats(config.value, t, first);
        var rest := Schedule(config, t);
        forall k | 0 <= k < |rest|
          ensures rest[k] == first + (k + 1) * r
        {
          assert (k + 1) * r == k * r + r;
        }
      } else {
        assert Schedule(config, t) == [];
      }
    }
  }

  /** A day has 86400000 milliseconds, a week 7 and a month 30 days. */
  lemma MillisExactly(amount: Amount)
    ensures Millis(Every(Day, amount)) == 86400000 * amount
    ensures Millis(Every(Week, amount)) == 604800000 * amount
    ensures Millis(Every(Month, amount)) == 2592000000 * amount
    ensures WINDOW == 2592000000
  {
  }

  /** After five days and then every other day: five reminders. After a month: one, and never another. */
  lemma SomeSchedules()
    ensures Schedule(Some(Settings(Every(Day, 5), Every(Day, 2))), Fresh(0)) ==
            [432000000, 604800000, 777600000, 950400000, 1123200000]
    ensures Schedule(Some(Settings(Every(Month, 1), Every(Day, 1))), Fresh(0)) == [2592000000]
    ensures Schedule(Some(Settings(Every(Week, 1), Every(Week, 2))), Fresh(0)) == [604800000, 1814400000]
  {
    FewDays();
    var month, week := Settings(Every(Month, 1), Every(Day, 1)), Settings(Every(Week, 1), Every(Week, 2));
    ScheduleIsExact(Some(month), 0);
    ScheduleIsExact(Some(week), 0);
    MillisExactly(1);
    MillisExactly(2);
    assert Total(Some(month)) == 1 && Total(Some(week)) == 2;
    assert Schedule(Some(month), Fresh(0))[0] == Due(month, 0, 0);
    assert Schedule(Some(week), Fresh(0))[0] == Due(week, 0, 0) && Schedule(Some(week), Fresh(0))[1] == Due(week, 0, 1);
  }

  lemma FewDays()
    ensures Schedule(Some(Settings(Every(Day, 5), Every(Day, 2))), Fresh(0)) ==
            [432000000, 604800000, 777600000, 950400000, 1123200000]
  {
    var c := Settings(Every(Day, 5), Every(Day, 2));
    ScheduleIsExact(Some(c), 0);
    MillisExactly(5);
    MillisExactly(2);
    var due := Schedule(Some(c), Fresh(0));
    assert |due| == 5;
    assert due[0] == Due(c, 0, 0) && due[1] == Due(c, 0, 1) && due[2] == Due(c, 0, 2);
    assert due[3] == Due(c, 0, 3) && due[4] == Due(c, 0, 4);
  }

  // ----- reminders may go out late -----

  /** One reminder: when it was due and when it went out. */
  datatype Reminder = Reminder(due: int, sent: int)

  /** A run of the reminder job: each reminder was due by the rule and went out at that time or later. */
  ghost predicate IsRun(config: Option<Settings>, s: State, run: seq<Reminder>)
    decreases |run|
  {
    run == [] ||
    (ResolveNextReminderAt(config, s) == Some(run[0].due) && run[0].sent >= run[0].due &&
     IsRun(config, Sent(s, run[0].sent), run[1..]))
  }

  /** A lower bound for the due times from state `s` on. */
  function Floor(s: State): int {
    if s.lastReminderSentAt.None? then s.sentAt else s.lastReminderSentAt.value
  }

  /** At most five reminders, at strictly increasing due times, all within the window. */
  lemma {:induction false} RunsStayInBounds(config: Option<Settings>, s: State, run: seq<Reminder>)
    requires IsRun(config, s, run)
    ensures s.reminderCount <= MAX_REMINDERS_BEFORE_RESEND ==>
              s.reminderCount + |run| <= MAX_REMINDERS_BEFORE_RESEND
    ensures s.reminderCount > MAX_REMINDERS_BEFORE_RESEND ==> run == []
    ensures forall k :: 0 <= k < |run| ==> Floor(s) < run[k].due <= s.sentAt + WINDOW && run[k].due <= run[k].sent
    ensures forall k, l :: 0 <= k < l < |run| ==> run[k].sent < run[l].due
    decreases |run|
  {
    if run != [] {
      var t := Sent(s, run[0].sent);
      RunsStayInBounds(config, t, run[1..]);
      assert forall l :: 0 < l < |run| ==> run[l] == run[1..][l - 1];
    }
  }

  /** `s` has sent as many reminders as `t`, and its last one no earlier. */
  ghost predicate Behind(s: State, t: State) {
    && s.sentAt == t.sentAt && s.reminderCount == t.reminderCount
    && (s.lastReminderSentAt.Some? <==> t.lastReminderSentAt.Some?)
    && (s.lastReminderSentAt.Some? ==> s.lastReminderSentAt.value >= t.lastReminderSentAt.value)
  }

  /** Late sending loses reminders but never gains one, and never makes one due earlier. */
  lemma {:induction false} LatenessOnlyDelays(config: Option<Settings>, s: State, run: seq<Reminder>, t: State)
    requires IsRun(config, s, run) && Behind(s, t)
    ensures |run| <= |Schedule(config, t)|
    ensures forall k :: 0 <= k < |run| ==> run[k].due >= Schedule(config, t)[k]
    decreases |run|
  {
    if run != [] {
      var due := ResolveNextReminderAt(config, t).value;
      var rest := Schedule(config, Sent(t, due));
      LatenessOnlyDelays(config, Sent(s, run[0].sent), run[1..], Sent(t, due));
      forall k | 0 <= k < |run|
        ensures run[k].due >= Schedule(config, t)[k]
      {
        if k > 0 {
          assert run[k] == run[1..][k - 1] && Schedule(config, t)[k] == rest[k - 1];
        }
      }
    }
  }

  /** A run of a fresh request has at most the number of reminders that fit into the window when sent on time. */
  lemma RunsOfAFreshRequest(config: Option<Settings>, sentAt: int, run: seq<Reminder>)
    requires IsRun(config, Fresh(sentAt), run)
    ensures |run| <= Total(config) <= MAX_REMINDERS_BEFORE_RESEND
    ensures forall k :: 0 <= k < |run| ==> sentAt < run[k].due <= sentAt + WINDOW && run[k].due <= run[k].sent
    ensures forall k, l :: 0 <= k < l < |run| ==> run[k].sent < run[l].due
    ensures forall k :: 0 <= k < |run| ==>
              config.Some? && config.value.sendAfter.Every? && (k > 0 ==> config.value.repeatEvery.Every?) &&
              run[k].due >= Due(config.value, sentAt, k)
  {
    RunsStayInBounds(config, Fresh(sentAt), run);
    LatenessOnlyDelays(config, Fresh(sentAt), run, Fresh(sentAt));
    ScheduleIsExact(config, sentAt);
  }
}
