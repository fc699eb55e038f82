/** The sensor waits of a schedule run: when they end, how often they poll and what they log. */
module Sensors {
  import opened Seqs

  datatype Kind = PathExists | PathGlob | HttpUrl

  datatype State = Error | Satisfied | Polling | Timeout

  datatype Event = Event(job: string, index: nat, state: State, kind: Kind, elapsed: real)

  datatype Wait = Wait(poll: real, timeout: real)

  /** The bounds `WaitForSpec` puts on its two numbers. */
  predicate ValidWait(w: Wait) {
    0.01 <= w.poll <= 3600.0 && 0.1 <= w.timeout <= 604800.0
  }

  // What one poll learns.

  datatype Answer = Raised | Yes | No | Silent

  /** How an HTTP request ends: an exception without a status, or a status code. */
  datatype Reply = NoStatus | Status(code: int)

  /** A path probe raises (None) or says whether the path is there. */
  function PathAnswers(probe: nat -> Option<bool>): nat -> Answer {
    (i: nat) => match probe(i)
      case None => Raised
      case Some(present) => if present then Yes else No
  }

  /** A status of -1 is what the loop uses for "no status", so it goes unrecorded. */
  function HttpAnswers(reply: nat -> Reply): nat -> Answer {
    (i: nat) => match reply(i)
      case NoStatus => Raised
      case Status(code) => if code == -1 then Silent else if 200 <= code < 300 then Yes else No
  }

  // Time. Polls are numbered from 1.

  /**
   * `lag(0)` passes before the first poll; `lag(i)` is all the time spent in poll `i` and after it besides the
   * sleep asked for; `jitter(i)` is the random part of the back-off after poll `i`.
   */
  datatype Clock = Clock(lag: nat -> real, jitter: nat -> real)

  ghost predicate ValidClock(clock: Clock, w: Wait, maxLag: real) {
    && (forall i: nat :: 0.0 <= clock.lag(i) <= maxLag)
    && (forall i: nat :: 0.0 <= clock.jitter(i) <= 0.5 * w.poll)
  }

  function Min(a: real, b: real): real { if a <= b then a else b }

  function Max(a: real, b: real): real { if a >= b then a else b }

  function Doubled(base: real, n: nat): real {
    if n == 0 then base else 2.0 * Doubled(base, n - 1)
  }

  /** The sleep between poll `i`, which started at `elapsed`, and the next one. */
  function Pause(kind: Kind, w: Wait, i: nat, elapsed: real, jitter: real): real
    requires i >= 1
  {
    if kind.HttpUrl? then
      Min(Min(w.poll * 30.0, Doubled(w.poll, i - 1)) + jitter, Max(0.1, w.timeout - elapsed - 0.001))
    else
      w.poll
  }

  /** When poll `i` starts, if the wait gets that far. */
  function Elapsed(kind: Kind, w: Wait, clock: Clock, i: nat): real {
    if i <= 1 then clock.lag(0)
    else
      var before := Elapsed(kind, w, clock, i - 1);
      before + clock.lag(i - 1) + Pause(kind, w, i - 1, before, clock.jitter(i - 1))
  }

  // How a wait goes.

  /** `2 ** 1024` does not fit a float, so the back-off after poll 1025 raises. */
  const LAST_BACKOFF: nat := 1024

  datatype Outcome = Met | TimedOut | Overflow

  ghost predicate GoesOn(kind: Kind, w: Wait, clock: Clock, answer: nat -> Answer, i: nat) {
    && answer(i) != Yes && Elapsed(kind, w, clock, i) < w.timeout
    && (kind.HttpUrl? ==> i <= LAST_BACKOFF)
  }

  ghost predicate Ends(kind: Kind, w: Wait, clock: Clock, answer: nat -> Answer, n: nat, outcome: Outcome) {
    match outcome
    case Met => answer(n) == Yes
    case TimedOut => answer(n) != Yes && Elapsed(kind, w, clock, n) >= w.timeout
    case Overflow =>
      kind.HttpUrl? && answer(n) != Yes && Elapsed(kind, w, clock, n) < w.timeout && n > LAST_BACKOFF
  }

  /** The wait ends at poll `n` with this outcome. */
  ghost predicate IsWait(kind: Kind, w: Wait, clock: Clock, answer: nat -> Answer, n: nat, outcome: Outcome) {
    && n >= 1
    && (forall i :: 1 <= i < n ==> GoesOn(kind, w, clock, answer, i))
    && Ends(kind, w, clock, answer, n, outcome)
  }

  // The bounds.

  /** The shortest sleep of a wait. */
  function Step(kind: Kind, w: Wait): real {
    if kind.HttpUrl? then Min(w.poll, 0.1) else w.poll
  }

  function Ceiling(x: real): int {
    -((-x).Floor)
  }

  function MaxPolls(kind: Kind, w: Wait): int
    requires ValidWait(w)
  {
    Ceiling(w.timeout / Step(kind, w)) + 1
  }

  lemma {:induction false} DoublingGrows(base: real, n: nat)
    requires base >= 0.0
    ensures Doubled(base, n) >= base
  {
    if n > 0 {
      DoublingGrows(base, n - 1);
    }
  }

  lemma PauseIsLongEnough(kind: Kind, w: Wait, i: nat, elapsed: real, jitter: real)
    requires ValidWait(w) && i >= 1 && jitter >= 0.0
    ensures Pause(kind, w, i, elapsed, jitter) >= Step(kind, w) >= 0.01
  {
    DoublingGrows(w.poll, i - 1);
  }

  lemma ElapsedGrows(kind: Kind, w: Wait, clock: Clock, maxLag: real, i: nat)
    requires ValidWait(w) && ValidClock(clock, w, maxLag) && i >= 1
    ensures Elapsed(kind, w, clock, i + 1) >= Elapsed(kind, w, clock, i) + Step(kind, w)
  {
    PauseIsLongEnough(kind, w, i, Elapsed(kind, w, clock, i), clock.jitter(i));
    assert clock.lag(i) >= 0.0;
  }

  /** `k` steps added up. */
  function Steps(k: nat, step: real): real {
    if k == 0 then 0.0 else Steps(k - 1, step) + step
  }

  lemma {:induction false} ElapsedIsAtLeast(kind: Kind, w: Wait, clock: Clock, maxLag: real, i: nat)
    requires ValidWait(w) && ValidClock(clock, w, maxLag) && i >= 1
    ensures Elapsed(kind, w, clock, i) >= Steps(i - 1, Step(kind, w))
  {
    if i == 1 {
      assert clock.lag(0) >= 0.0;
    } else {
      ElapsedIsAtLeast(kind, w, clock, maxLag, i - 1);
      ElapsedGrows(kind, w, clock, maxLag, i - 1);
    }
  }

  lemma {:induction false} StepsAddUp(k: nat, step: real)
    ensures Steps(k, step) == k as real * step
  {
    if k > 0 {
      StepsAddUp(k - 1, step);
      OneMore(k - 1, step);
    }
  }

  lemma OneMore(k: nat, step: real)
    ensures (k + 1) as real * step == k as real * step + step
  {}

  lemma ScalingIsMonotone(a: real, b: real, step: real)
    requires step > 0.0 && a >= b
    ensures a * step >= b * step
  {}

  lemma WithinCeiling(k: int, step: real, limit: real)
    requires step > 0.0 && k as real * step < limit
    ensures k < Ceiling(limit / step)
  {
    var steps := limit / step;
    assert limit == steps * step;
    if k as real >= steps {
      ScalingIsMonotone(k as real, steps, step);
    }
  }

  lemma StepsWithin(k: nat, step: real, limit: real)
    requires step > 0.0 && Steps(k, step) < limit
    ensures k < Ceiling(limit / step)
  {
    StepsAddUp(k, step);
    WithinCeiling(k, step, limit);
  }

  /** A poll that is followed by another is among the first `MaxPolls - 1`. */
  lemma {:induction false} GoingOnIsBounded(kind: Kind, w: Wait, clock: Clock, maxLag: real, i: nat)
    requires ValidWait(w) && ValidClock(clock, w, maxLag) && i >= 1
    requires Elapsed(kind, w, clock, i) < w.timeout
    ensures i < MaxPolls(kind, w)
  {
    ElapsedIsAtLeast(kind, w, clock, maxLag, i);
    StepsWithin(i - 1, Step(kind, w), w.timeout);
  }

  lemma PollsAreBounded(kind: Kind, w: Wait, clock: Clock, answer: nat -> Answer, maxLag: real, n: nat,
                        outcome: Outcome)
    requires ValidWait(w) && ValidClock(clock, w, maxLag)
    requires IsWait(kind, w, clock, answer, n, outcome)
    ensures n <= Ceiling(w.timeout / Step(kind, w)) + 1
  {
    if n > 1 {
      assert GoesOn(kind, w, clock, answer, n - 1);
      GoingOnIsBounded(kind, w, clock, maxLag, n - 1);
    } else {
      WithinCeiling(0, Step(kind, w), w.timeout);
    }
  }

  /** A hundredth of a second to an hour between polls, a tenth of a second to a week in all. */
  lemma WaitLimits(w: Wait)
    ensures ValidWait(w) <==> 1.0 <= 100.0 * w.poll <= 100.0 * 60.0 * 60.0
                              && 1.0 <= 10.0 * w.timeout <= 10.0 * 7.0 * 24.0 * 60.0 * 60.0
  {
  }

  /** So no wait at all makes more than 60480001 polls. */
  lemma PollsInAnyWait(kind: Kind, w: Wait, clock: Clock, answer: nat -> Answer, maxLag: real, n: nat,
                       outcome: Outcome)
    requires ValidWait(w) && ValidClock(clock, w, maxLag)
    requires IsWait(kind, w, clock, answer, n, outcome)
    ensures n <= 60480001
  {
    if n > 2 {
      assert GoesOn(kind, w, clock, answer, n - 1);
      ElapsedIsAtLeast(kind, w, clock, maxLag, n - 1);
      StepsAddUp(n - 2, Step(kind, w));
      assert Step(kind, w) >= 0.01;
      ScalingIsMonotone(Step(kind, w), 0.01, (n - 2) as real);
    }
  }

  /** However the jitter falls, the last poll starts before the time-out plus one short sleep and one slow request. */
  lemma LastPollIsNotLate(kind: Kind, w: Wait, clock: Clock, answer: nat -> Answer, maxLag: real, n: nat,
                          outcome: Outcome)
    requires ValidWait(w) && ValidClock(clock, w, maxLag)
    requires IsWait(kind, w, clock, answer, n, outcome)
    ensures Elapsed(kind, w, clock, n) < w.timeout + (if kind.HttpUrl? then 0.1 else w.poll) + maxLag
  {
    assert 0.0 <= clock.lag(0) <= maxLag;
    if n > 1 {
      assert GoesOn(kind, w, clock, answer, n - 1);
    }
  }

  // The overflow of the HTTP back-off.

  /** The earliest start of poll `i` while no sleep is cut short. */
  function Earliest(poll: real, i: nat): real {
    if i <= 1 then 0.0 else Earliest(poll, i - 1) + Min(poll * 30.0, Doubled(poll, i - 2))
  }

  lemma {:induction false} EarliestIs(poll: real, i: nat)
    requires poll > 0.0 && i >= 6
    ensures Earliest(poll, i) == 31.0 * poll + (i - 6) as real * 30.0 * poll
  {
    if i == 6 {
      assert Doubled(poll, 1) == 2.0 * poll;
      assert Doubled(poll, 2) == 4.0 * poll;
      assert Doubled(poll, 3) == 8.0 * poll;
      assert Doubled(poll, 4) == 16.0 * poll;
      assert Earliest(poll, 2) == poll;
      assert Earliest(poll, 3) == 3.0 * poll;
      assert Earliest(poll, 4) == 7.0 * poll;
      assert Earliest(poll, 5) == 15.0 * poll;
    } else {
      EarliestIs(poll, i - 1);
      AtLeastThirtyTwo(poll, i - 2);
    }
  }

  lemma {:induction false} AtLeastThirtyTwo(poll: real, n: nat)
    requires poll > 0.0 && n >= 5
    ensures Doubled(poll, n) >= 32.0 * poll
  {
    if n > 5 {
      AtLeastThirtyTwo(poll, n - 1);
    } else {
      assert Doubled(poll, 1) == 2.0 * poll;
      assert Doubled(poll, 3) == 8.0 * poll;
    }
  }

  /**
   * The pause after poll `i` is the poll interval times 1, 2, 4, 8, 16 and then always 30, plus the jitter, cut
   * to what is left before the time-out less a millisecond, but not below a tenth of a second. Paths are looked
   * for at the poll interval.
   */
  lemma PauseIs(w: Wait, i: nat, elapsed: real, jitter: real)
    requires ValidWait(w) && i >= 1
    ensures var factor := if i == 1 then 1.0 else if i == 2 then 2.0 else if i == 3 then 4.0 else if i == 4 then 8.0
                          else if i == 5 then 16.0 else 30.0;
            var wanted, left := factor * w.poll + jitter, w.timeout - elapsed - 0.001;
            Pause(HttpUrl, w, i, elapsed, jitter)
            == if wanted <= left || wanted <= 0.1 then wanted else if left <= 0.1 then 0.1 else left
    ensures Pause(PathExists, w, i, elapsed, jitter) == Pause(PathGlob, w, i, elapsed, jitter) == w.poll
  {
    if i >= 6 {
      AtLeastThirtyTwo(w.poll, i - 1);
    } else {
      assert Doubled(w.poll, 0) == w.poll && Doubled(w.poll, 1) == 2.0 * w.poll && Doubled(w.poll, 2) == 4.0 * w.poll;
      assert Doubled(w.poll, 3) == 8.0 * w.poll && Doubled(w.poll, 4) == 16.0 * w.poll;
    }
  }

  lemma {:induction false} EarliestGrows(poll: real, i: nat, j: nat)
    requires poll > 0.0 && i <= j
    ensures Earliest(poll, i) <= Earliest(poll, j)
  {
    if i < j {
      EarliestGrows(poll, i, j - 1);
      if j > 1 {
        DoublingGrows(poll, j - 2);
      }
    }
  }

  /** A sleep is cut short only to end within a millisecond of the time-out. */
  lemma {:induction false} NotBeforeEarliest(w: Wait, clock: Clock, maxLag: real, n: nat)
    requires ValidWait(w) && ValidClock(clock, w, maxLag) && n >= 1
    ensures || Elapsed(HttpUrl, w, clock, n) >= Earliest(w.poll, n)
            || Elapsed(HttpUrl, w, clock, n) >= w.timeout - 0.001
  {
    assert clock.lag(0) >= 0.0;
    if n > 1 {
      NotBeforeEarliest(w, clock, maxLag, n - 1);
      ElapsedGrows(HttpUrl, w, clock, maxLag, n - 1);
      assert clock.lag(n - 1) >= 0.0 && clock.jitter(n - 1) >= 0.0;
    }
  }

  /** The longest time-out for which the back-off is never computed past its range. */
  function SafeTimeout(w: Wait): real {
    30571.0 * w.poll + 0.1
  }

  lemma OverflowTakesLong(w: Wait, clock: Clock, answer: nat -> Answer, maxLag: real, n: nat)
    requires ValidWait(w) && ValidClock(clock, w, maxLag)
    requires IsWait(HttpUrl, w, clock, answer, n, Overflow)
    ensures n == LAST_BACKOFF + 1 && w.timeout > SafeTimeout(w)
  {
    assert GoesOn(HttpUrl, w, clock, answer, n - 1);
    NotBeforeEarliest(w, clock, maxLag, LAST_BACKOFF);
    ElapsedGrows(HttpUrl, w, clock, maxLag, LAST_BACKOFF);
    EarliestIs(w.poll, LAST_BACKOFF);
    AtLeastThirtyTwo(w.poll, LAST_BACKOFF - 1);
    assert clock.lag(LAST_BACKOFF) >= 0.0 && clock.jitter(LAST_BACKOFF) >= 0.0;
  }

  /** A clock that adds nothing to the sleeps. */
  function IdleClock(): Clock {
    Clock((i: nat) => 0.0, (i: nat) => 0.0)
  }

  lemma {:induction false} IdleElapsed(w: Wait, n: nat)
    requires ValidWait(w) && w.timeout > SafeTimeout(w) && 1 <= n <= LAST_BACKOFF
    ensures Elapsed(HttpUrl, w, IdleClock(), n) == Earliest(w.poll, n) <= 30571.0 * w.poll
  {
    EarliestIs(w.poll, LAST_BACKOFF);
    EarliestGrows(w.poll, n, LAST_BACKOFF);
    if n > 1 {
      IdleElapsed(w, n - 1);
      EarliestIs(w.poll, LAST_BACKOFF - 1);
      EarliestGrows(w.poll, n - 1, LAST_BACKOFF - 1);
    }
  }

  lemma LongWaitOverflows(w: Wait, answer: nat -> Answer)
    requires ValidWait(w) && w.timeout > SafeTimeout(w)
    requires forall i: nat :: answer(i) != Yes
    ensures IsWait(HttpUrl, w, IdleClock(), answer, LAST_BACKOFF + 1, Overflow)
  {
    var clock := IdleClock();
    forall i | 1 <= i < LAST_BACKOFF + 1
      ensures GoesOn(HttpUrl, w, clock, answer, i)
    {
      IdleElapsed(w, i);
    }
    IdleElapsed(w, LAST_BACKOFF);
    AtLeastThirtyTwo(w.poll, LAST_BACKOFF - 1);
    var before := Elapsed(HttpUrl, w, clock, LAST_BACKOFF);
    assert Elapsed(HttpUrl, w, clock, LAST_BACKOFF + 1)
        == before + Pause(HttpUrl, w, LAST_BACKOFF, before, 0.0);
  }

  lemma {:induction false} ElapsedIsMonotone(kind: Kind, w: Wait, clock: Clock, maxLag: real, i: nat, j: nat)
    requires ValidWait(w) && ValidClock(clock, w, maxLag) && 1 <= i <= j
    ensures Elapsed(kind, w, clock, i) <= Elapsed(kind, w, clock, j)
  {
    if i < j {
      ElapsedIsMonotone(kind, w, clock, maxLag, i, j - 1);
      ElapsedGrows(kind, w, clock, maxLag, j - 1);
    }
  }

  /** Whatever the clock: a wait ends so exactly when it is still unanswered and in time at poll 1025. */
  lemma OverflowIffStillWaiting(w: Wait, clock: Clock, answer: nat -> Answer, maxLag: real)
    requires ValidWait(w) && ValidClock(clock, w, maxLag)
    ensures IsWait(HttpUrl, w, clock, answer, LAST_BACKOFF + 1, Overflow) <==>
      && (forall i: nat :: 1 <= i <= LAST_BACKOFF + 1 ==> answer(i) != Yes)
      && Elapsed(HttpUrl, w, clock, LAST_BACKOFF + 1) < w.timeout
  {
    forall i: nat | 1 <= i <= LAST_BACKOFF + 1
      ensures Elapsed(HttpUrl, w, clock, i) <= Elapsed(HttpUrl, w, clock, LAST_BACKOFF + 1)
    {
      ElapsedIsMonotone(HttpUrl, w, clock, maxLag, i, LAST_BACKOFF + 1);
    }
    if IsWait(HttpUrl, w, clock, answer, LAST_BACKOFF + 1, Overflow) {
      forall i: nat | 1 <= i <= LAST_BACKOFF
        ensures answer(i) != Yes
      {
        assert GoesOn(HttpUrl, w, clock, answer, i);
      }
    }
  }

  ghost predicate CanOverflow(w: Wait) {
    exists clock, answer, maxLag, n ::
      ValidClock(clock, w, maxLag) && IsWait(HttpUrl, w, clock, answer, n, Overflow)
  }

  /** An HTTP wait can die of its back-off exactly when its time-out is longer than about 30571 poll intervals. */
  lemma OverflowIffTimeoutIsLong(w: Wait)
    requires ValidWait(w)
    ensures CanOverflow(w) <==> w.timeout > SafeTimeout(w)
  {
    if CanOverflow(w) {
      var clock, answer, maxLag, n :|
        ValidClock(clock, w, maxLag) && IsWait(HttpUrl, w, clock, answer, n, Overflow);
      OverflowTakesLong(w, clock, answer, maxLag, n);
    }
    if w.timeout > SafeTimeout(w) {
      var answer: nat -> Answer := i => Raised;
      LongWaitOverflows(w, answer);
      assert ValidClock(IdleClock(), w, 0.0);
    }
  }

  // The log and the gauge.

  function StateOf(answer: Answer): State
    requires answer != Silent
  {
    match answer
    case Raised => Error
    case Yes => Satisfied
    case No => Polling
  }

  function PollEvents(job: string, kind: Kind, i: nat, answer: Answer, elapsed: real): seq<Event> {
    if answer == Silent then [] else [Event(job, i, StateOf(answer), kind, elapsed)]
  }

  /** The events of the first `n` polls. */
  function Events(job: string, kind: Kind, w: Wait, clock: Clock, answer: nat -> Answer, n: nat): seq<Event> {
    if n == 0 then []
    else
      Events(job, kind, w, clock, answer, n - 1)
      + PollEvents(job, kind, n, answer(n), Elapsed(kind, w, clock, n))
  }

  function TimeoutEvent(job: string, kind: Kind, w: Wait, clock: Clock, n: nat): Event {
    Event(job, n, Timeout, kind, Elapsed(kind, w, clock, n))
  }

  /** Everything a wait logs. */
  function WaitLog(job: string, kind: Kind, w: Wait, clock: Clock, answer: nat -> Answer, n: nat,
                   outcome: Outcome): seq<Event>
  {
    Events(job, kind, w, clock, answer, n)
    + if outcome == TimedOut then [TimeoutEvent(job, kind, w, clock, n)] else []
  }

  type Gauge = map<(string, State), nat>

  function Reading(gauge: Gauge, key: (string, State)): nat {
    if key in gauge then gauge[key] else 0
  }

  function Keys(events: seq<Event>): seq<(string, State)> {
    seq(|events|, i requires 0 <= i < |events| => (events[i].job, events[i].state))
  }

  /** The gauge counts the events of each job and state, and holds nothing else. */
  ghost predicate Gauges(gauge: Gauge, events: seq<Event>) {
    && gauge.Keys == ToSet(Keys(events))
    && forall key :: Reading(gauge, key) == multiset(Keys(events))[key]
  }

  ghost function Total<K>(m: map<K, nat>): nat
    decreases m.Keys
  {
    if m == map[] then 0 else
      var k :| k in m;
      m[k] + Total(m - {k})
  }

  lemma {:induction false} TotalWithout<K>(m: map<K, nat>, k: K)
    requires k in m
    ensures Total(m) == m[k] + Total(m - {k})
    decreases m.Keys
  {
    var j :| j in m && Total(m) == m[j] + Total(m - {j});
    if j != k {
      TotalWithout(m - {j}, k);
      TotalWithout(m - {k}, j);
      assert m - {j} - {k} == m - {k} - {j};
    }
  }

  lemma TotalOfUpdate<K>(m: map<K, nat>, k: K, n: nat)
    ensures Total(m[k := n]) == Total(m - {k}) + n
  {
    TotalWithout(m[k := n], k);
    assert m[k := n] - {k} == m - {k};
  }

  /** Over any number of waits, the gauge readings add up to the number of events. */
  lemma {:induction false} GaugeCountsAddUp(gauge: Gauge, events: seq<Event>)
    requires Gauges(gauge, events)
    ensures Total(gauge) == |events|
  {
    if events == [] {
      assert gauge == map[];
    } else {
      var last := |events| - 1;
      var key := (events[last].job, events[last].state);
      assert Keys(events) == Keys(events[..last]) + [key];
      var count := Reading(gauge, key);
      var before := if count > 1 then gauge[key := count - 1] else gauge - {key};
      assert Gauges(before, events[..last]) by {
        assert forall k ::
          multiset(Keys(events))[k] == multiset(Keys(events[..last]))[k] + (if k == key then 1 else 0);
        assert forall k :: k in Keys(events[..last]) <==> multiset(Keys(events[..last]))[k] > 0;
      }
      GaugeCountsAddUp(before, events[..last]);
      TotalWithout(gauge, key);
      if count > 1 {
        TotalOfUpdate(gauge, key, (count - 1) as nat);
      }
    }
  }

  /** The event list and the gauge that all waits of a run share. */
  class SensorLog {
    var events: seq<Event>
    var gauge: Gauge

    ghost predicate Valid()
      reads this
    {
      Gauges(gauge, events)
    }

    constructor ()
      ensures Valid() && events == []
    {
      events, gauge := [], map[];
    }

    method Record(event: Event)
      requires Valid()
      modifies this
      ensures Valid() && events == old(events) + [event]
    {
      var key := (event.job, event.state);
      gauge := gauge[key := Reading(gauge, key) + 1];
      events := events + [event];
      assert Keys(events) == Keys(old(events)) + [key];
    }
  }

  /** One look at the path and its log entry. */
  method PollPath(job: string, kind: Kind, i: nat, elapsed: real, probe: nat -> Option<bool>, log: SensorLog)
    returns (satisfied: bool)
    requires log.Valid()
    modifies log
    ensures log.Valid()
    ensures satisfied <==> PathAnswers(probe)(i) == Yes
    ensures log.events == old(log.events) + PollEvents(job, kind, i, PathAnswers(probe)(i), elapsed)
  {
    var found := probe(i);
    match found {
      case None =>
        log.Record(Event(job, i, Error, kind, elapsed));
        return false;
      case Some(present) =>
        if present {
          log.Record(Event(job, i, Satisfied, kind, elapsed));
          return true;
        }
        log.Record(Event(job, i, Polling, kind, elapsed));
        return false;
    }
  }

  /** The sleep between two polls and the time at which it ends. */
  method Sleep(kind: Kind, w: Wait, clock: Clock, i: nat, elapsed: real) returns (now: real)
    requires i >= 1 && elapsed == Elapsed(kind, w, clock, i)
    ensures now == Elapsed(kind, w, clock, i + 1)
  {
    now := elapsed + clock.lag(i) + Pause(kind, w, i, elapsed, clock.jitter(i));
  }

  /** One look adds the events of its poll to those of the wait so far. */
  method NextLook(job: string, kind: Kind, w: Wait, clock: Clock, probe: nat -> Option<bool>, i: nat, elapsed: real,
                  ghost before: seq<Event>, log: SensorLog) returns (satisfied: bool)
    requires log.Valid() && i >= 1 && elapsed == Elapsed(kind, w, clock, i)
    requires log.events == before + Events(job, kind, w, clock, PathAnswers(probe), i - 1)
    modifies log
    ensures log.Valid() && (satisfied <==> PathAnswers(probe)(i) == Yes)
    ensures log.events == before + Events(job, kind, w, clock, PathAnswers(probe), i)
  {
    satisfied := PollPath(job, kind, i, elapsed, probe, log);
  }

  /** The polling loop. */
  method PathLoop(job: string, kind: Kind, w: Wait, clock: Clock, probe: nat -> Option<bool>,
                  ghost maxLag: real, log: SensorLog)
    returns (ok: bool, polls: nat)
    requires ValidWait(w) && kind != HttpUrl && ValidClock(clock, w, maxLag) && log.Valid()
    modifies log
    ensures log.Valid()
    ensures IsWait(kind, w, clock, PathAnswers(probe), polls, if ok then Met else TimedOut)
    ensures log.events == old(log.events)
      + WaitLog(job, kind, w, clock, PathAnswers(probe), polls, if ok then Met else TimedOut)
  {
    polls := 0;
    var now := clock.lag(0);
    ghost var answer := PathAnswers(probe);
    while true
      invariant log.Valid()
      invariant now == Elapsed(kind, w, clock, polls + 1)
      invariant forall i :: 1 <= i <= polls ==> GoesOn(kind, w, clock, answer, i)
      invariant log.events == old(log.events) + Events(job, kind, w, clock, answer, polls)
      decreases MaxPolls(kind, w) - polls
    {
      polls := polls + 1;
      var elapsed := now;
      var satisfied := NextLook(job, kind, w, clock, probe, polls, elapsed, old(log.events), log);
      if satisfied {
        return true, polls;
      }
      if elapsed >= w.timeout {
        log.Record(Event(job, polls, Timeout, kind, elapsed));
        return false, polls;
      }
      GoingOnIsBounded(kind, w, clock, maxLag, polls);
      now := Sleep(kind, w, clock, polls, elapsed);
    }
  }

  lemma PathWaitTells(kind: Kind, w: Wait, clock: Clock, probe: nat -> Option<bool>, n: nat, outcome: Outcome)
    requires IsWait(kind, w, clock, PathAnswers(probe), n, outcome)
    ensures n >= 1 && (outcome == Met <==> probe(n) == Some(true))
    ensures forall i: nat :: 1 <= i < n ==> probe(i) != Some(true)
    ensures outcome == TimedOut ==> Elapsed(kind, w, clock, n) >= w.timeout
    ensures forall i: nat :: 1 <= i < n ==> Elapsed(kind, w, clock, i) < w.timeout
  {
    forall i: nat | 1 <= i < n
      ensures probe(i) != Some(true) && Elapsed(kind, w, clock, i) < w.timeout
    {
      assert GoesOn(kind, w, clock, PathAnswers(probe), i);
    }
  }

  method WaitForPath(job: string, kind: Kind, w: Wait, clock: Clock, probe: nat -> Option<bool>,
                     ghost maxLag: real, log: SensorLog)
    returns (ok: bool, polls: nat)
    requires ValidWait(w) && kind != HttpUrl && ValidClock(clock, w, maxLag) && log.Valid()
    modifies log
    ensures log.Valid()
    ensures IsWait(kind, w, clock, PathAnswers(probe), polls, if ok then Met else TimedOut)
    ensures log.events == old(log.events)
      + WaitLog(job, kind, w, clock, PathAnswers(probe), polls, if ok then Met else TimedOut)
    // The wait succeeds with the first look that finds the path; a look that fails counts as not found.
    ensures polls >= 1 && (ok <==> probe(polls) == Some(true))
    ensures forall i: nat :: 1 <= i < polls ==> probe(i) != Some(true)
    // It times out with the first look that starts past the time-out.
    ensures !ok ==> Elapsed(kind, w, clock, polls) >= w.timeout
    ensures forall i: nat :: 1 <= i < polls ==> Elapsed(kind, w, clock, i) < w.timeout
    // One event for each look, numbered from 1, and one for the time-out.
    ensures |log.events| == |old(log.events)| + polls + if ok then 0 else 1
    ensures forall i: nat :: 1 <= i <= polls ==>
              log.events[|old(log.events)| + i - 1] == Event(
                job, i, if probe(i) == None then Error else if probe(i) == Some(true) then Satisfied else Polling, kind,
                Elapsed(kind, w, clock, i))
    ensures !ok ==> log.events[|log.events| - 1] == Event(job, polls, Timeout, kind, Elapsed(kind, w, clock, polls))
  {
    ok, polls := PathLoop(job, kind, w, clock, probe, maxLag, log);
    PathWaitTells(kind, w, clock, probe, polls, if ok then Met else TimedOut);
    forall i: nat | 1 <= i <= polls
      ensures |Events(job, kind, w, clock, PathAnswers(probe), polls)| == polls
      ensures Events(job, kind, w, clock, PathAnswers(probe), polls)[i - 1] == Event(
        job, i, if probe(i) == None then Error else if probe(i) == Some(true) then Satisfied else Polling, kind,
        Elapsed(kind, w, clock, i))
    {
      PathEventAt(job, kind, w, clock, probe, polls, i);
    }
  }

  lemma {:induction false} PathEventAt(job: string, kind: Kind, w: Wait, clock: Clock, probe: nat -> Option<bool>,
                                       n: nat, i: nat)
    requires 1 <= i <= n
    ensures |Events(job, kind, w, clock, PathAnswers(probe), n)| == n
    ensures Events(job, kind, w, clock, PathAnswers(probe), n)[i - 1] == Event(
      job, i, if probe(i) == None then Error else if probe(i) == Some(true) then Satisfied else Polling, kind,
      Elapsed(kind, w, clock, i))
  {
    if n == 1 {
      assert Events(job, kind, w, clock, PathAnswers(probe), 0) == [];
    } else {
      PathEventAt(job, kind, w, clock, probe, n - 1, if i < n then i else 1);
    }
  }

  /** One request and its log entry. */
  method PollHttp(job: string, i: nat, elapsed: real, reply: nat -> Reply, log: SensorLog) returns (satisfied: bool)
    requires log.Valid()
    modifies log
    ensures log.Valid()
    ensures satisfied <==> HttpAnswers(reply)(i) == Yes
    ensures log.events == old(log.events) + PollEvents(job, HttpUrl, i, HttpAnswers(reply)(i), elapsed)
  {
    var status := -1;
    var got := reply(i);
    match got {
      case NoStatus =>
        log.Record(Event(job, i, Error, HttpUrl, elapsed));
      case Status(code) =>
        status := code;
    }
    satisfied := false;
    if status != -1 {
      if 200 <= status < 300 {
        log.Record(Event(job, i, Satisfied, HttpUrl, elapsed));
        return true;
      }
      log.Record(Event(job, i, Polling, HttpUrl, elapsed));
    }
  }

  method NextRequest(job: string, w: Wait, clock: Clock, reply: nat -> Reply, i: nat, elapsed: real,
                     ghost before: seq<Event>, log: SensorLog) returns (satisfied: bool)
    requires log.Valid() && i >= 1 && elapsed == Elapsed(HttpUrl, w, clock, i)
    requires log.events == before + Events(job, HttpUrl, w, clock, HttpAnswers(reply), i - 1)
    modifies log
    ensures log.Valid() && (satisfied <==> HttpAnswers(reply)(i) == Yes)
    ensures log.events == before + Events(job, HttpUrl, w, clock, HttpAnswers(reply), i)
  {
    satisfied := PollHttp(job, i, elapsed, reply, log);
  }

  /** The polling loop. */
  method HttpLoop(job: string, w: Wait, clock: Clock, reply: nat -> Reply, ghost maxLag: real, log: SensorLog)
    returns (outcome: Outcome, polls: nat)
    requires ValidWait(w) && ValidClock(clock, w, maxLag) && log.Valid()
    modifies log
    ensures log.Valid()
    ensures IsWait(HttpUrl, w, clock, HttpAnswers(reply), polls, outcome)
    ensures log.events == old(log.events) + WaitLog(job, HttpUrl, w, clock, HttpAnswers(reply), polls, outcome)
  {
    polls := 0;
    var now := clock.lag(0);
    ghost var answer := HttpAnswers(reply);
    while true
      invariant log.Valid()
      invariant now == Elapsed(HttpUrl, w, clock, polls + 1)
      invariant forall i :: 1 <= i <= polls ==> GoesOn(HttpUrl, w, clock, answer, i)
      invariant log.events == old(log.events) + Events(job, HttpUrl, w, clock, answer, polls)
      decreases MaxPolls(HttpUrl, w) - polls
    {
      polls := polls + 1;
      var elapsed := now;
      var satisfied := NextRequest(job, w, clock, reply, polls, elapsed, old(log.events), log);
      if satisfied {
        return Met, polls;
      }
      if elapsed >= w.timeout {
        log.Record(Event(job, polls, Timeout, HttpUrl, elapsed));
        return TimedOut, polls;
      }
      if polls > LAST_BACKOFF {
        return Overflow, polls;
      }
      GoingOnIsBounded(HttpUrl, w, clock, maxLag, polls);
      now := Sleep(HttpUrl, w, clock, polls, elapsed);
    }
  }

  lemma HttpWaitTells(w: Wait, clock: Clock, reply: nat -> Reply, n: nat, outcome: Outcome)
    requires IsWait(HttpUrl, w, clock, HttpAnswers(reply), n, outcome)
    ensures n >= 1 && (outcome == Met <==> reply(n).Status? && 200 <= reply(n).code <= 299)
    ensures forall i: nat :: 1 <= i < n ==> !(reply(i).Status? && 200 <= reply(i).code <= 299)
    ensures outcome == TimedOut ==> Elapsed(HttpUrl, w, clock, n) >= w.timeout
    ensures forall i: nat :: 1 <= i < n ==> Elapsed(HttpUrl, w, clock, i) < w.timeout
  {
    forall i: nat | 1 <= i < n
      ensures !(reply(i).Status? && 200 <= reply(i).code <= 299) && Elapsed(HttpUrl, w, clock, i) < w.timeout
    {
      assert GoesOn(HttpUrl, w, clock, HttpAnswers(reply), i);
    }
  }

  method WaitForHttp(job: string, w: Wait, clock: Clock, reply: nat -> Reply, ghost maxLag: real, log: SensorLog)
    returns (outcome: Outcome, polls: nat)
    requires ValidWait(w) && ValidClock(clock, w, maxLag) && log.Valid()
    modifies log
    ensures log.Valid()
    ensures IsWait(HttpUrl, w, clock, HttpAnswers(reply), polls, outcome)
    ensures log.events == old(log.events) + WaitLog(job, HttpUrl, w, clock, HttpAnswers(reply), polls, outcome)
    // The wait succeeds with the first reply of the 200s; other replies and failed requests do not end it.
    ensures polls >= 1 && (outcome == Met <==> reply(polls).Status? && 200 <= reply(polls).code <= 299)
    ensures forall i: nat :: 1 <= i < polls ==> !(reply(i).Status? && 200 <= reply(i).code <= 299)
    // It times out with the first request that starts past the time-out.
    ensures outcome == TimedOut ==> Elapsed(HttpUrl, w, clock, polls) >= w.timeout
    ensures forall i: nat :: 1 <= i < polls ==> Elapsed(HttpUrl, w, clock, i) < w.timeout
    // Every request leaves its event, unless its status is -1.
    ensures forall i: nat :: 1 <= i <= polls && reply(i) != Status(-1) ==>
              Event(job, i,
                    if reply(i) == NoStatus then Error else if 200 <= reply(i).code <= 299 then Satisfied else Polling,
                    HttpUrl, Elapsed(HttpUrl, w, clock, i)) in log.events
    ensures outcome == TimedOut ==>
              Event(job, polls, Timeout, HttpUrl, Elapsed(HttpUrl, w, clock, polls)) in log.events
  {
    outcome, polls := HttpLoop(job, w, clock, reply, maxLag, log);
    HttpWaitTells(w, clock, reply, polls, outcome);
    forall i: nat | 1 <= i <= polls && reply(i) != Status(-1)
      ensures Event(job, i,
                    if reply(i) == NoStatus then Error else if 200 <= reply(i).code <= 299 then Satisfied else Polling,
                    HttpUrl, Elapsed(HttpUrl, w, clock, i)) in Events(job, HttpUrl, w, clock, HttpAnswers(reply), polls)
    {
      HttpEventListed(job, w, clock, reply, polls, i);
    }
  }

  lemma {:induction false} HttpEventListed(job: string, w: Wait, clock: Clock, reply: nat -> Reply, n: nat, i: nat)
    requires 1 <= i <= n && reply(i) != Status(-1)
    ensures Event(job, i,
                  if reply(i) == NoStatus then Error else if 200 <= reply(i).code <= 299 then Satisfied else Polling,
                  HttpUrl, Elapsed(HttpUrl, w, clock, i)) in Events(job, HttpUrl, w, clock, HttpAnswers(reply), n)
  {
    if i < n {
      HttpEventListed(job, w, clock, reply, n - 1, i);
    }
  }
}
