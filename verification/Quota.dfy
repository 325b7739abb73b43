/** The monthly request quota. A request is admitted when a count of usage rows since the start of the
    month is below the limit, and its own row is written later. Times are instants on the UTC time line. */
module Quota {
  import opened Basics
  import opened Digits
  import opened Sequences


  // ----- the months of the server's zone

  /** In microseconds, to which the database cuts every time. */
  const DAY: nat := 86_400_000_000

  /** The zone of a server: its offset from UTC at an instant, the instant of a local clock reading, and
      the first day of the month of a local day. */
  datatype Zone = Zone(offset: int -> int, instant: int -> int, first: int -> int) {
    /** What a local clock shows, which is what a column without a zone stores and compares. */
    function Reading(t: int): int { t + offset(t) }

    function LocalDay(t: int): int { Reading(t) / DAY }

    /** A month is named by its first day. */
    function Month(t: int): int { first(LocalDay(t)) }

    /** What the code takes for the start of the month, from two looks at the clock: the reading at the last
        midnight in UTC, moved back by the local day of the month less one. */
    function StartOfMonth(clock: int, day: int): int {
      var midnight := clock / DAY * DAY;
      instant(Reading(midnight) - (LocalDay(day) - Month(day)) * DAY)
    }

    /** Whether the query of a check that ends its window at `end` counts a row created at `t`. */
    predicate Counts(start: int, end: int, t: int) { Reading(start) <= Reading(t) <= Reading(end) }

    /** Local months do not go back. */
    ghost predicate Lawful() { forall s, t | s <= t :: Month(s) <= Month(t) }

    /** Every window counts all of the local month up to its end. */
    ghost predicate Covers() {
      forall clock, day, t, s | clock <= day <= t && s <= t && Month(s) == Month(t) ::
        Counts(StartOfMonth(clock, day), t, s)
    }
  }

  /** A month begins with its first day, and later days are not in earlier months. */
  ghost predicate Calendar(first: int -> int) {
    && (forall d :: first(d) <= d && first(first(d)) == first(d))
    && forall d, e | d <= e :: first(d) <= first(e)
  }

  /** A zone with one offset all year. */
  function Fixed(offset: int, first: int -> int): Zone { Zone(_ => offset, local => local - offset, first) }

  // ----- one organization

  /** A local month, the rows that a window counts, or all time. */
  datatype Period = In(zone: Zone, month: int) | Window(zone: Zone, start: int, end: int) | Ever {
    predicate Has(t: int) {
      match this
      case In(z, m) => z.Month(t) == m
      case Window(z, start, end) => z.Counts(start, end, t)
      case Ever => true
    }
  }

  /** How many of the instants lie in a period. */
  function Tally(times: seq<int>, p: Period): nat {
    if times == [] then 0 else
      Tally(times[..|times| - 1], p) + if p.Has(times[|times| - 1]) then 1 else 0
  }

  /** A request has looked at the clock and asks, waits for its row once admitted, or is refused; the row of
      an admitted request is written or lost. */
  datatype Status = Asking | Waiting | Recorded | Lost | Refused

  /** A request with the start of its window and its last look at the clock, which ends the window. */
  datatype Request = Request(start: int, end: int, status: Status)

  const IN_FLIGHT := {Asking, Waiting}
  const ADMITTED := {Waiting, Recorded, Lost}
  const NOT_REFUSED := {Asking, Waiting, Recorded, Lost}

  /** How many of the requests of a period have one of the statuses. */
  function Number(requests: seq<Request>, p: Period, statuses: set<Status>): nat {
    if requests == [] then 0 else
      var last := requests[|requests| - 1];
      Number(requests[..|requests| - 1], p, statuses) + if p.Has(last.end) && last.status in statuses then 1 else 0
  }

  /** A request looks at the clock three times; its two queries are answered at one moment or fail; the
      row of an admitted request is written with its creation time, or the write fails. */
  datatype Event =
    | Begin(at: int, clock: int, day: int)
    | Decide(at: int, request: nat, answered: bool)
    | Record(at: int, request: nat, created: int, inserted: bool)

  /** The rows by creation time, and all requests in the order of their windows' ends. */
  datatype State = State(rows: seq<int>, requests: seq<Request>)

  const EMPTY := State([], [])

  /** A row is created after its request's last look at the clock and before it is written. */
  predicate Enabled(s: State, e: Event) {
    match e
    case Begin(at, clock, day) => clock <= day <= at
    case Decide(_, i, _) => i < |s.requests| && s.requests[i].status == Asking
    case Record(at, i, created, _) =>
      i < |s.requests| && s.requests[i].status == Waiting && s.requests[i].end <= created <= at
  }

  predicate Admits(z: Zone, max: int, rows: seq<int>, start: int, end: int, answered: bool) {
    answered && Tally(rows, Window(z, start, end)) < max
  }

  function WithStatus(s: State, i: nat, status: Status): State
    requires i < |s.requests|
  {
    s.(requests := s.requests[i := s.requests[i].(status := status)])
  }

  function Apply(z: Zone, max: int, s: State, e: Event): State
    requires Enabled(s, e)
  {
    match e
    case Begin(at, clock, day) => s.(requests := s.requests + [Request(z.StartOfMonth(clock, day), at, Asking)])
    case Decide(_, i, answered) =>
      var r := s.requests[i];
      WithStatus(s, i, if Admits(z, max, s.rows, r.start, r.end, answered) then Waiting else Refused)
    case Record(_, i, created, inserted) =>
      if inserted then WithStatus(s, i, Recorded).(rows := s.rows + [created]) else WithStatus(s, i, Lost)
  }

  function Exec(z: Zone, max: int, events: seq<Event>): Option<State> {
    if events == [] then Some(EMPTY) else
      var m := |events| - 1;
      match Exec(z, max, events[..m])
      case None => None
      case Some(s) => if Enabled(s, events[m]) then Some(Apply(z, max, s, events[m])) else None
  }

  /** Time does not go back. */
  ghost predicate Timely(events: seq<Event>) {
    forall i, j | 0 <= i < j < |events| :: events[i].at <= events[j].at
  }

  function InFlight(s: State): nat { Number(s.requests, Ever, IN_FLIGHT) }

  /** At no time are more than p requests between their look at the clock and their row. */
  ghost predicate AtMostInFlight(z: Zone, max: int, events: seq<Event>, p: nat) {
    forall n | 0 <= n <= |events| && Exec(z, max, events[..n]).Some? :: InFlight(Exec(z, max, events[..n]).value) <= p
  }

  /** A run in which at most p requests are ever in flight. */
  ghost predicate Run(z: Zone, max: int, events: seq<Event>, p: nat) {
    Timely(events) && AtMostInFlight(z, max, events, p) && Exec(z, max, events).Some?
  }

  function Bound(max: int, p: nat): nat { if max > 0 then max - 1 + p else 0 }

  /** In every local month, the admissions whose row was not lost are at most max - 1 + p. */
  ghost predicate Within(z: Zone, max: int, s: State, p: nat) {
    forall month ::
      Number(s.requests, In(z, month), ADMITTED) <= Bound(max, p) + Number(s.requests, In(z, month), {Lost})
  }

  ghost predicate AlwaysWithin(z: Zone, max: int, p: nat) {
    forall events | Run(z, max, events, p) :: Within(z, max, Exec(z, max, events).value, p)
  }

  // ----- counting

  lemma TallyAppend(times: seq<int>, x: int, p: Period)
    ensures Tally(times + [x], p) == Tally(times, p) + if p.Has(x) then 1 else 0
  {
    assert (times + [x])[..|times|] == times;
  }

  lemma {:induction false} TallyImplies(times: seq<int>, p: Period, q: Period)
    requires forall t | t in times && p.Has(t) :: q.Has(t)
    ensures Tally(times, p) <= Tally(times, q)
    decreases |times|
  {
    if times != [] {
      assert times[|times| - 1] in times;
      TallyImplies(times[..|times| - 1], p, q);
    }
  }

  lemma NumberAppend(requests: seq<Request>, r: Request, p: Period, statuses: set<Status>)
    ensures Number(requests + [r], p, statuses)
         == Number(requests, p, statuses) + if p.Has(r.end) && r.status in statuses then 1 else 0
  {
    assert (requests + [r])[..|requests|] == requests;
  }

  /** One request changes its status. */
  lemma {:induction false} NumberUpdate(requests: seq<Request>, i: nat, r: Request, p: Period, statuses: set<Status>)
    requires i < |requests| && r.end == requests[i].end
    ensures Number(requests[i := r], p, statuses)
            + (if p.Has(r.end) && requests[i].status in statuses then 1 else 0)
         == Number(requests, p, statuses) + if p.Has(r.end) && r.status in statuses then 1 else 0
    decreases |requests|
  {
    var m := |requests| - 1;
    if i == m {
      assert requests[i := r][..m] == requests[..m];
    } else {
      NumberUpdate(requests[..m], i, r, p, statuses);
      assert requests[i := r][..m] == requests[..m][i := r];
    }
  }

  lemma {:induction false} NumberNone(requests: seq<Request>, p: Period, statuses: set<Status>)
    requires forall r | r in requests :: !p.Has(r.end)
    ensures Number(requests, p, statuses) == 0
    decreases |requests|
  {
    if requests != [] {
      assert requests[|requests| - 1] in requests;
      NumberNone(requests[..|requests| - 1], p, statuses);
    }
  }

  /** Requests that are not refused are in flight, recorded or lost. */
  lemma {:induction false} NumberSplits(requests: seq<Request>, p: Period)
    ensures Number(requests, p, NOT_REFUSED)
         <= Number(requests, Ever, IN_FLIGHT) + Number(requests, p, {Recorded}) + Number(requests, p, {Lost})
    ensures Number(requests, p, ADMITTED) <= Number(requests, p, NOT_REFUSED)
    decreases |requests|
  {
    if requests != [] {
      NumberSplits(requests[..|requests| - 1], p);
    }
  }

  /** The last request of a kind has all of the kind at or before it. */
  lemma {:induction false} LastOf(requests: seq<Request>, p: Period, statuses: set<Status>) returns (i: nat)
    requires Number(requests, p, statuses) > 0
    ensures i < |requests| && p.Has(requests[i].end) && requests[i].status in statuses
    ensures Number(requests[..i + 1], p, statuses) == Number(requests, p, statuses)
    decreases |requests|
  {
    var m := |requests| - 1;
    if p.Has(requests[m].end) && requests[m].status in statuses {
      i := m;
      assert requests[..m + 1] == requests;
    } else {
      i := LastOf(requests[..m], p, statuses);
      assert requests[..m][..i + 1] == requests[..i + 1];
    }
  }

  // ----- the bound

  /** The month of a request. */
  function MonthOf(z: Zone, r: Request): Period { In(z, z.Month(r.end)) }

  /** Nothing has happened after `now`, and every recorded request of the current month has a row in it. */
  ghost predicate Accounted(z: Zone, s: State, now: int) {
    && (forall t | t in s.rows :: t <= now)
    && (forall r | r in s.requests :: r.end <= now)
    && Number(s.requests, In(z, z.Month(now)), {Recorded}) <= Tally(s.rows, In(z, z.Month(now)))
  }

  /** The requests of its month up to request i that are not refused. */
  function UpTo(z: Zone, requests: seq<Request>, i: nat): nat
    requires i < |requests|
  {
    Number(requests[..i + 1], MonthOf(z, requests[i]), NOT_REFUSED)
  }

  /** They exceed what the window of request i counts by at most p and the lost ones, as long as it asks,
      and so they are within the bound once it is admitted. */
  ghost predicate Kept(z: Zone, max: int, s: State, p: nat, i: nat)
    requires i < |s.requests|
  {
    var r := s.requests[i];
    var lost := Number(s.requests, MonthOf(z, r), {Lost});
    && (r.status == Asking ==> UpTo(z, s.requests, i) <= Tally(s.rows, Window(z, r.start, r.end)) + p + lost)
    && (r.status in ADMITTED ==> max > 0 && UpTo(z, s.requests, i) <= max - 1 + p + lost)
  }

  ghost predicate AllKept(z: Zone, max: int, s: State, p: nat) {
    forall i | 0 <= i < |s.requests| :: Kept(z, max, s, p, i)
  }

  lemma AccountedLater(z: Zone, s: State, now: int, later: int)
    requires z.Lawful() && Accounted(z, s, now) && now <= later
    ensures Accounted(z, s, later)
  {
    if z.Month(now) != z.Month(later) {
      NumberNone(s.requests, In(z, z.Month(later)), {Recorded});
    }
  }

  lemma NothingYet(z: Zone, now: int)
    ensures Accounted(z, EMPTY, now)
  {
  }

  /** A row's creation lies between its request and now, so in their month if they share one. */
  lemma CreatedInMonth(z: Zone, end: int, created: int, now: int)
    requires z.Lawful() && end <= created <= now && z.Month(end) == z.Month(now)
    ensures z.Month(created) == z.Month(now)
  {
    assert z.Month(end) <= z.Month(created) <= z.Month(now);
  }

  lemma StatusAccounted(z: Zone, s: State, i: nat, status: Status, now: int)
    requires Accounted(z, s, now) && i < |s.requests| && status != Recorded
    ensures Accounted(z, WithStatus(s, i, status), now)
  {
    var r := s.requests[i].(status := status);
    NumberUpdate(s.requests, i, r, In(z, z.Month(now)), {Recorded});
    hide Number, Tally, Zone.Month;
    assert forall q | q in s.requests[i := r] :: q.end <= now;
  }

  lemma BeginAccounted(z: Zone, s: State, r: Request)
    requires Accounted(z, s, r.end) && r.status == Asking
    ensures Accounted(z, s.(requests := s.requests + [r]), r.end)
  {
    NumberAppend(s.requests, r, In(z, z.Month(r.end)), {Recorded});
    hide Number, Tally;
  }

  lemma InsertAccounted(z: Zone, s: State, i: nat, created: int, now: int)
    requires z.Lawful() && Accounted(z, s, now) && i < |s.requests| && s.requests[i].end <= created <= now
    ensures Accounted(z, WithStatus(s, i, Recorded).(rows := s.rows + [created]), now)
  {
    var p, r := In(z, z.Month(now)), s.requests[i].(status := Recorded);
    if z.Month(r.end) == z.Month(now) {
      CreatedInMonth(z, r.end, created, now);
    }
    NumberUpdate(s.requests, i, r, p, {Recorded});
    TallyAppend(s.rows, created, p);
    hide Number, Tally, Zone.Month, Zone.Lawful;
    assert forall q | q in s.requests[i := r] :: q.end <= now;
  }

  lemma AccountedStep(z: Zone, max: int, s: State, e: Event)
    requires z.Lawful() && Accounted(z, s, e.at) && Enabled(s, e)
    ensures Accounted(z, Apply(z, max, s, e), e.at)
  {
    hide Accounted, Admits, Zone.Lawful, Zone.StartOfMonth;
    match e {
      case Begin(at, clock, day) => BeginAccounted(z, s, Request(z.StartOfMonth(clock, day), at, Asking));
      case Decide(at, i, answered) =>
        StatusAccounted(z, s, i, Waiting, at);
        StatusAccounted(z, s, i, Refused, at);
      case Record(at, i, created, _) =>
        InsertAccounted(z, s, i, created, at);
        StatusAccounted(z, s, i, Lost, at);
    }
  }

  /** A new request finds every earlier one of its month in flight, recorded within its window, or lost. */
  lemma BeginKept(z: Zone, max: int, s: State, e: Event, p: nat)
    requires z.Covers() && Accounted(z, s, e.at) && e.Begin? && Enabled(s, e)
    requires AllKept(z, max, s, p) && InFlight(Apply(z, max, s, e)) <= p
    ensures AllKept(z, max, Apply(z, max, s, e), p)
  {
    var t := Apply(z, max, s, e);
    var r := t.requests[|s.requests|];
    hide Zone.Lawful, Admits;
    forall i | 0 <= i < |t.requests| ensures Kept(z, max, t, p, i) {
      NumberAppend(s.requests, r, MonthOf(z, t.requests[i]), {Lost});
      if i < |s.requests| {
        assert Kept(z, max, s, p, i) && t.requests[..i + 1] == s.requests[..i + 1];
      } else {
        assert t.requests[..i + 1] == t.requests;
        NumberSplits(t.requests, MonthOf(z, r));
        NumberAppend(s.requests, r, MonthOf(z, r), {Recorded});
        AllCounted(z, s.rows, e);
      }
    }
  }

  /** The window of a new request counts all rows of its month. */
  lemma AllCounted(z: Zone, rows: seq<int>, e: Event)
    requires z.Covers() && e.Begin? && e.clock <= e.day <= e.at && forall t | t in rows :: t <= e.at
    ensures Tally(rows, In(z, z.Month(e.at))) <= Tally(rows, Window(z, z.StartOfMonth(e.clock, e.day), e.at))
  {
    forall t | t in rows && z.Month(t) == z.Month(e.at) ensures z.Counts(z.StartOfMonth(e.clock, e.day), e.at, t) {
    }
    hide Zone.Month, Zone.StartOfMonth, Zone.Counts, Zone.Covers;
    TallyImplies(rows, In(z, z.Month(e.at)), Window(z, z.StartOfMonth(e.clock, e.day), e.at));
  }

  /** A change of status that does not undo a refusal makes no request's predecessors more. */
  lemma StatusUpTo(z: Zone, requests: seq<Request>, i: nat, status: Status, k: nat)
    requires i < |requests| && k < |requests| && requests[i].status != Refused
    ensures var after := requests[i := requests[i].(status := status)];
            && MonthOf(z, after[k]) == MonthOf(z, requests[k])
            && UpTo(z, after, k) <= UpTo(z, requests, k)
  {
    var r := requests[i].(status := status);
    var after := requests[i := r];
    if i <= k {
      NumberUpdate(requests[..k + 1], i, r, MonthOf(z, requests[k]), NOT_REFUSED);
      assert after[..k + 1] == requests[..k + 1][i := r];
    } else {
      assert after[..k + 1] == requests[..k + 1];
    }
  }

  /** What the other steps keep: a decision by the guard, and a row written or lost. */
  lemma StatusKept(z: Zone, max: int, s: State, p: nat, i: nat, status: Status, rows: seq<int>)
    requires AllKept(z, max, s, p) && i < |s.requests| && s.requests[i].status in IN_FLIGHT
    requires rows == s.rows || exists x :: rows == s.rows + [x]
    requires status == Refused || (s.requests[i].status == Waiting && status in {Recorded, Lost})
          || (status == Waiting && Tally(s.rows, Window(z, s.requests[i].start, s.requests[i].end)) < max)
    ensures AllKept(z, max, WithStatus(s, i, status).(rows := rows), p)
  {
    var t := WithStatus(s, i, status).(rows := rows);
    forall k | 0 <= k < |t.requests| ensures Kept(z, max, t, p, k) {
      var q := s.requests[k];
      assert Kept(z, max, s, p, k);
      StatusUpTo(z, s.requests, i, status, k);
      NumberUpdate(s.requests, i, t.requests[i], MonthOf(z, q), {Lost});
      if rows != s.rows {
        var x :| rows == s.rows + [x];
        TallyAppend(s.rows, x, Window(z, q.start, q.end));
      }
      hide UpTo, Number, Tally, MonthOf, AllKept, Period.Has;
    }
  }

  lemma KeptStep(z: Zone, max: int, s: State, e: Event, p: nat)
    requires z.Covers() && Accounted(z, s, e.at) && Enabled(s, e)
    requires AllKept(z, max, s, p) && InFlight(Apply(z, max, s, e)) <= p
    ensures AllKept(z, max, Apply(z, max, s, e), p)
  {
    hide AllKept, Accounted, Zone.Covers, Tally, Number;
    match e {
      case Begin(_, _, _) => BeginKept(z, max, s, e, p);
      case Decide(_, i, answered) =>
        var r := s.requests[i];
        if Admits(z, max, s.rows, r.start, r.end, answered) {
          StatusKept(z, max, s, p, i, Waiting, s.rows);
        } else {
          StatusKept(z, max, s, p, i, Refused, s.rows);
        }
      case Record(_, i, created, inserted) =>
        if inserted {
          StatusKept(z, max, s, p, i, Recorded, s.rows + [created]);
        } else {
          StatusKept(z, max, s, p, i, Lost, s.rows);
        }
    }
  }

  /** The last request admitted in a month bounds all of them. */
  lemma KeptIsWithin(z: Zone, max: int, s: State, p: nat)
    requires AllKept(z, max, s, p)
    ensures Within(z, max, s, p)
  {
    forall month
      ensures Number(s.requests, In(z, month), ADMITTED) <= Bound(max, p) + Number(s.requests, In(z, month), {Lost})
    {
      if Number(s.requests, In(z, month), ADMITTED) > 0 {
        var i := LastOf(s.requests, In(z, month), ADMITTED);
        assert Kept(z, max, s, p, i);
        NumberSplits(s.requests[..i + 1], In(z, month));
      }
    }
  }

  lemma RunPrefix(z: Zone, max: int, events: seq<Event>, p: nat)
    requires Run(z, max, events, p) && events != []
    ensures var m := |events| - 1;
            && Run(z, max, events[..m], p)
            && (m > 0 ==> events[m - 1].at <= events[m].at)
            && var s := Exec(z, max, events[..m]).value;
            && Enabled(s, events[m]) && Exec(z, max, events) == Some(Apply(z, max, s, events[m]))
            && InFlight(Apply(z, max, s, events[m])) <= p
  {
    var m := |events| - 1;
    hide Apply, Enabled, InFlight;
    assert forall n | 0 <= n <= m :: events[..m][..n] == events[..n];
    assert events[..|events|] == events;
  }

  lemma {:induction false} RunKept(z: Zone, max: int, events: seq<Event>, p: nat)
    requires z.Lawful() && z.Covers() && Run(z, max, events, p)
    ensures var s := Exec(z, max, events).value;
            && (events == [] ==> s == EMPTY)
            && (events != [] ==> Accounted(z, s, events[|events| - 1].at))
            && AllKept(z, max, s, p)
    decreases |events|
  {
    if events != [] {
      var m := |events| - 1;
      var init, e := events[..m], events[m];
      RunPrefix(z, max, events, p);
      hide Run, Exec, Apply, Enabled, Accounted, AllKept, InFlight, Zone.Lawful, Zone.Covers;
      RunKept(z, max, init, p);
      var s := Exec(z, max, init).value;
      if m > 0 {
        AccountedLater(z, s, init[m - 1].at, e.at);
      } else {
        NothingYet(z, e.at);
      }
      AccountedStep(z, max, s, e);
      KeptStep(z, max, s, e, p);
    }
  }

  /** With windows that cover the month, an organization is admitted at most max - 1 + p times in a month,
      and once more for each row that was lost. */
  lemma OvershootBound(z: Zone, max: int, events: seq<Event>, p: nat)
    requires z.Lawful() && z.Covers() && Run(z, max, events, p)
    ensures Within(z, max, Exec(z, max, events).value, p)
  {
    RunKept(z, max, events, p);
    KeptIsWithin(z, max, Exec(z, max, events).value, p);
  }

  // ----- runs that reach or pass the bound

  function Times(n: nat, t: int): seq<int> { seq(n, _ => t) }

  function Copies(n: nat, r: Request): seq<Request> { seq(n, _ => r) }

  lemma {:induction false} TallyTimes(before: seq<int>, n: nat, t: int, p: Period)
    ensures Tally(before + Times(n, t), p) == Tally(before, p) + if p.Has(t) then n else 0
    decreases n
  {
    if n == 0 {
      assert before + Times(0, t) == before;
    } else {
      TallyTimes(before, n - 1, t, p);
      TallyAppend(before + Times(n - 1, t), t, p);
      assert before + Times(n, t) == before + Times(n - 1, t) + [t];
    }
  }

  lemma {:induction false} NumberCopies(before: seq<Request>, n: nat, r: Request, p: Period, statuses: set<Status>)
    ensures Number(before + Copies(n, r), p, statuses)
         == Number(before, p, statuses) + if p.Has(r.end) && r.status in statuses then n else 0
    decreases n
  {
    if n == 0 {
      assert before + Copies(0, r) == before;
    } else {
      NumberCopies(before, n - 1, r, p, statuses);
      NumberAppend(before + Copies(n - 1, r), r, p, statuses);
      assert before + Copies(n, r) == before + Copies(n - 1, r) + [r];
    }
  }

  /** The run, with events up to `at`, ends in this state. */
  ghost predicate Reaches(z: Zone, max: int, p: nat, events: seq<Event>, at: int, s: State) {
    Run(z, max, events, p) && Exec(z, max, events) == Some(s) && forall e | e in events :: e.at <= at
  }

  lemma Later(z: Zone, max: int, p: nat, events: seq<Event>, at: int, later: int, s: State)
    requires Reaches(z, max, p, events, at, s) && at <= later
    ensures Reaches(z, max, p, events, later, s)
  {
  }

  lemma Start(z: Zone, max: int, p: nat, at: int)
    ensures Reaches(z, max, p, [], at, EMPTY) && InFlight(EMPTY) == 0 && forall w :: Tally([], w) == 0
  {
  }

  lemma Extend(z: Zone, max: int, p: nat, before: seq<Event>, s: State, e: Event) returns (events: seq<Event>)
    requires Reaches(z, max, p, before, e.at, s) && Enabled(s, e) && InFlight(Apply(z, max, s, e)) <= p
    ensures Reaches(z, max, p, events, e.at, Apply(z, max, s, e))
  {
    hide Apply, Enabled, InFlight;
    events := before + [e];
    assert events[..|before|] == before;
    forall n | 0 <= n <= |events| && Exec(z, max, events[..n]).Some?
      ensures InFlight(Exec(z, max, events[..n]).value) <= p
    {
      if n <= |before| {
        assert events[..n] == before[..n];
      } else {
        assert events[..n] == events;
      }
    }
  }

  /** One more request, with the status it has come to. */
  function Plus(s: State, start: int, end: int, status: Status): State {
    s.(requests := s.requests + [Request(start, end, status)])
  }

  lemma PlusStatus(s: State, start: int, end: int, before: Status, after: Status)
    ensures WithStatus(Plus(s, start, end, before), |s.requests|, after) == Plus(s, start, end, after)
    ensures InFlight(Plus(s, start, end, after)) == InFlight(s) + if after in IN_FLIGHT then 1 else 0
  {
    NumberAppend(s.requests, Request(start, end, after), Ever, IN_FLIGHT);
  }

  lemma PlusSteps(z: Zone, max: int, s: State, clock: int, day: int, at: int)
    requires clock <= day <= at
    ensures var start, i := z.StartOfMonth(clock, day), |s.requests|;
            var asking, waiting := Plus(s, start, at, Asking), Plus(s, start, at, Waiting);
            && Apply(z, max, s, Begin(at, clock, day)) == asking
            && Enabled(asking, Decide(at, i, true))
            && (Tally(s.rows, Window(z, start, at)) < max ==> Apply(z, max, asking, Decide(at, i, true)) == waiting)
            && Enabled(waiting, Record(at, i, at, true))
            && Apply(z, max, waiting, Record(at, i, at, true)) == Plus(s, start, at, Recorded).(rows := s.rows + [at])
  {
    PlusStatus(s, z.StartOfMonth(clock, day), at, Asking, Waiting);
    PlusStatus(s, z.StartOfMonth(clock, day), at, Waiting, Recorded);
    hide WithStatus, Tally, InFlight, Zone.StartOfMonth;
  }

  /** One more request looks at the clock and is admitted. */
  lemma Admit(z: Zone, max: int, p: nat, before: seq<Event>, s: State, clock: int, day: int, at: int)
    returns (events: seq<Event>)
    requires Reaches(z, max, p, before, at, s) && clock <= day <= at
    requires InFlight(s) < p && Tally(s.rows, Window(z, z.StartOfMonth(clock, day), at)) < max
    ensures Reaches(z, max, p, events, at, Plus(s, z.StartOfMonth(clock, day), at, Waiting))
  {
    ghost var start := z.StartOfMonth(clock, day);
    PlusSteps(z, max, s, clock, day, at);
    PlusStatus(s, start, at, Asking, Asking);
    PlusStatus(s, start, at, Asking, Waiting);
    assert Enabled(s, Begin(at, clock, day));
    hide Reaches, Tally, InFlight, Apply, Enabled, Plus, WithStatus, Zone.StartOfMonth;
    events := Extend(z, max, p, before, s, Begin(at, clock, day));
    events := Extend(z, max, p, events, Plus(s, start, at, Asking), Decide(at, |s.requests|, true));
  }

  lemma AdmitAndRecord(z: Zone, max: int, p: nat, before: seq<Event>, s: State, clock: int, day: int, at: int)
    returns (events: seq<Event>)
    requires Reaches(z, max, p, before, at, s) && clock <= day <= at
    requires InFlight(s) < p && Tally(s.rows, Window(z, z.StartOfMonth(clock, day), at)) < max
    ensures var t := Plus(s, z.StartOfMonth(clock, day), at, Recorded).(rows := s.rows + [at]);
            Reaches(z, max, p, events, at, t) && InFlight(t) == InFlight(s)
  {
    ghost var start := z.StartOfMonth(clock, day);
    PlusSteps(z, max, s, clock, day, at);
    PlusStatus(s, start, at, Waiting, Recorded);
    assert InFlight(Plus(s, start, at, Recorded).(rows := s.rows + [at])) == InFlight(s);
    hide Reaches, Tally, InFlight, Apply, Enabled, Plus, WithStatus, Zone.StartOfMonth;
    events := Admit(z, max, p, before, s, clock, day, at);
    events := Extend(z, max, p, events, Plus(s, start, at, Waiting), Record(at, |s.requests|, at, true));
  }

  /** The state when n more requests have come, and their rows if they were recorded. */
  function More(s: State, n: nat, start: int, end: int, status: Status): State {
    State(if status == Recorded then s.rows + Times(n, end) else s.rows,
          s.requests + Copies(n, Request(start, end, status)))
  }

  lemma MoreSteps(s: State, n: nat, start: int, end: int, status: Status)
    requires status == Recorded || status == Waiting
    ensures More(s, 0, start, end, status) == s
    ensures var t := More(s, n, start, end, status);
            && (status == Recorded ==>
                  More(s, n + 1, start, end, status) == Plus(t, start, end, status).(rows := t.rows + [end]))
            && (status == Waiting ==> More(s, n + 1, start, end, status) == Plus(t, start, end, status))
            && InFlight(t) == InFlight(s) + if status == Waiting then n else 0
  {
    var r := Request(start, end, status);
    NumberCopies(s.requests, n, r, Ever, IN_FLIGHT);
    hide Number;
    assert s.rows + Times(0, end) == s.rows && s.requests + Copies(0, r) == s.requests;
    assert s.rows + Times(n + 1, end) == s.rows + Times(n, end) + [end];
    assert s.requests + Copies(n + 1, r) == s.requests + Copies(n, r) + [r];
  }

  lemma MoreTally(s: State, n: nat, start: int, end: int, status: Status, w: Period)
    ensures Tally(More(s, n, start, end, status).rows, w) <= Tally(s.rows, w) + n
    ensures status != Recorded ==> More(s, n, start, end, status).rows == s.rows
  {
    TallyTimes(s.rows, n, end, w);
    hide Tally;
  }

  /** n requests with equal looks at the clock, each recorded before the next one looks. */
  lemma {:induction false} OneByOne(z: Zone, max: int, p: nat, before: seq<Event>, s: State, n: nat, clock: int,
      day: int, at: int) returns (events: seq<Event>)
    requires Reaches(z, max, p, before, at, s) && clock <= day <= at
    requires InFlight(s) < p && Tally(s.rows, Window(z, z.StartOfMonth(clock, day), at)) + n <= max
    ensures Reaches(z, max, p, events, at, More(s, n, z.StartOfMonth(clock, day), at, Recorded))
    decreases n
  {
    ghost var start := z.StartOfMonth(clock, day);
    hide *;
    if n == 0 {
      MoreSteps(s, 0, start, at, Recorded);
      events := before;
    } else {
      ghost var t := More(s, n - 1, start, at, Recorded);
      assert n - 1 + 1 == n;
      MoreTally(s, n - 1, start, at, Recorded, Window(z, start, at));
      MoreSteps(s, n - 1, start, at, Recorded);
      events := OneByOne(z, max, p, before, s, n - 1, clock, day, at);
      events := AdmitAndRecord(z, max, p, events, t, clock, day, at);
    }
  }

  lemma OneMore(z: Zone, max: int, p: nat, before: seq<Event>, s: State, n: nat, clock: int, day: int, at: int)
    returns (events: seq<Event>)
    requires clock <= day <= at
    requires Reaches(z, max, p, before, at, More(s, n, z.StartOfMonth(clock, day), at, Waiting))
    requires InFlight(s) + n < p && Tally(s.rows, Window(z, z.StartOfMonth(clock, day), at)) < max
    ensures Reaches(z, max, p, events, at, More(s, n + 1, z.StartOfMonth(clock, day), at, Waiting))
  {
    ghost var t := More(s, n, z.StartOfMonth(clock, day), at, Waiting);
    hide *;
    MoreTally(s, n, z.StartOfMonth(clock, day), at, Waiting, Window(z, z.StartOfMonth(clock, day), at));
    MoreSteps(s, n, z.StartOfMonth(clock, day), at, Waiting);
    events := Admit(z, max, p, before, t, clock, day, at);
  }

  /** n requests that are all admitted before one of them is recorded. */
  lemma {:induction false} Together(z: Zone, max: int, p: nat, before: seq<Event>, s: State, n: nat, clock: int,
      day: int, at: int) returns (events: seq<Event>)
    requires Reaches(z, max, p, before, at, s) && clock <= day <= at
    requires InFlight(s) + n <= p && Tally(s.rows, Window(z, z.StartOfMonth(clock, day), at)) < max
    ensures Reaches(z, max, p, events, at, More(s, n, z.StartOfMonth(clock, day), at, Waiting))
    decreases n
  {
    ghost var start := z.StartOfMonth(clock, day);
    hide *;
    if n == 0 {
      MoreSteps(s, 0, start, at, Waiting);
      events := before;
    } else {
      events := Together(z, max, p, before, s, n - 1, clock, day, at);
      events := OneMore(z, max, p, events, s, n - 1, clock, day, at);
    }
  }

  /** What n more requests of a month count for. */
  lemma MoreNumber(s: State, n: nat, start: int, end: int, status: Status, month: Period)
    requires month.Has(end) && status in {Recorded, Waiting}
    ensures var t := More(s, n, start, end, status);
            && Number(t.requests, month, {Lost}) == Number(s.requests, month, {Lost})
            && Number(t.requests, month, ADMITTED) == Number(s.requests, month, ADMITTED) + n
  {
    NumberCopies(s.requests, n, Request(start, end, status), month, {Lost});
    NumberCopies(s.requests, n, Request(start, end, status), month, ADMITTED);
  }

  /** max - 1 requests one by one and then p together. */
  lemma Fill(z: Zone, max: int, p: nat, before: seq<Event>, s: State, clock: int, day: int, at: int)
    returns (events: seq<Event>, t: State)
    requires max > 0 && p > 0 && Reaches(z, max, p, before, at, s) && clock <= day <= at && InFlight(s) == 0
    requires Tally(s.rows, Window(z, z.StartOfMonth(clock, day), at)) == 0
    ensures Reaches(z, max, p, events, at, t)
    ensures var month := In(z, z.Month(at));
            && Number(t.requests, month, {Lost}) == Number(s.requests, month, {Lost})
            && Number(t.requests, month, ADMITTED) == Number(s.requests, month, ADMITTED) + Bound(max, p)
  {
    ghost var start, month := z.StartOfMonth(clock, day), In(z, z.Month(at));
    ghost var half := More(s, max - 1, start, at, Recorded);
    assert month.Has(at);
    TallyTimes(s.rows, max - 1, at, Window(z, start, at));
    assert Tally(half.rows, Window(z, start, at)) < max;
    MoreSteps(s, max - 1, start, at, Recorded);
    MoreNumber(s, max - 1, start, at, Recorded, month);
    MoreNumber(half, p, start, at, Waiting, month);
    hide Reaches, Tally, InFlight, More, Zone.StartOfMonth, Zone.Month, Number, Period.Has;
    events := OneByOne(z, max, p, before, s, max - 1, clock, day, at);
    events := Together(z, max, p, events, half, p, clock, day, at);
    t := More(half, p, start, at, Waiting);
  }

  /** The bound is reached in the month of any instant. */
  lemma OvershootReached(z: Zone, max: int, p: nat, at: int) returns (events: seq<Event>)
    requires max > 0 && p > 0
    ensures Run(z, max, events, p)
    ensures var s, month := Exec(z, max, events).value, In(z, z.Month(at));
            Number(s.requests, month, {Lost}) == 0 && Number(s.requests, month, ADMITTED) == Bound(max, p)
  {
    Start(z, max, p, at);
    hide Tally, InFlight, Run, Exec, Zone.StartOfMonth, Zone.Month;
    ghost var s;
    events, s := Fill(z, max, p, [], EMPTY, at, at, at);
  }

  /** When a window leaves out an earlier instant of the month, max requests at that instant do not count. */
  lemma UncoveredRun(z: Zone, max: int, p: nat, early: int, clock: int, day: int, late: int)
    returns (events: seq<Event>)
    requires max > 0 && p > 0 && clock <= day <= late
    requires early <= late && z.Month(early) == z.Month(late) && !z.Counts(z.StartOfMonth(clock, day), late, early)
    ensures Run(z, max, events, p)
    ensures var s, month := Exec(z, max, events).value, In(z, z.Month(late));
            Number(s.requests, month, {Lost}) == 0 && Number(s.requests, month, ADMITTED) == max + Bound(max, p)
  {
    ghost var month, window := In(z, z.Month(late)), Window(z, z.StartOfMonth(clock, day), late);
    ghost var begun := z.StartOfMonth(early, early);
    ghost var first := More(EMPTY, max, begun, early, Recorded);
    ghost var s;
    assert month.Has(early) && !window.Has(early);
    Start(z, max, p, early);
    TallyTimes([], max, early, window);
    assert Tally(first.rows, window) == 0;
    MoreSteps(EMPTY, max, begun, early, Recorded);
    MoreNumber(EMPTY, max, begun, early, Recorded, month);
    assert Number([], month, {Lost}) == 0 && Number([], month, ADMITTED) == 0;
    hide Reaches, Tally, InFlight, More, Zone.StartOfMonth, Zone.Month, Number, Period.Has;
    events := OneByOne(z, max, p, [], EMPTY, max, early, early, early);
    Later(z, max, p, events, early, late, first);
    events, s := Fill(z, max, p, events, first, clock, day, late);
    RunOf(z, max, p, events, late, s);
  }

  lemma RunOf(z: Zone, max: int, p: nat, events: seq<Event>, at: int, s: State)
    requires Reaches(z, max, p, events, at, s)
    ensures Run(z, max, events, p) && Exec(z, max, events) == Some(s)
  {
  }

  /** The quota holds in every run, up to the requests in flight, exactly when every window counts all of
      the local month up to its end. */
  lemma WindowExactly(z: Zone, max: int, p: nat)
    requires z.Lawful() && max > 0 && p > 0
    ensures AlwaysWithin(z, max, p) <==> z.Covers()
  {
    if z.Covers() {
      forall events | Run(z, max, events, p) ensures Within(z, max, Exec(z, max, events).value, p) {
        OvershootBound(z, max, events, p);
      }
    } else {
      var clock, day, late, early :| clock <= day <= late && early <= late && z.Month(early) == z.Month(late)
                                  && !z.Counts(z.StartOfMonth(clock, day), late, early);
      var events := UncoveredRun(z, max, p, early, clock, day, late);
      var s := Exec(z, max, events).value;
      hide Exec, Run;
      assert !Within(z, max, s, p) by {
        assert Number(s.requests, In(z, z.Month(late)), {Lost}) == 0;
      }
    }
  }

  // ----- zones with one offset

  lemma FixedMonths(offset: int, first: int -> int)
    requires Calendar(first)
    ensures Fixed(offset, first).Lawful()
  {
    var z := Fixed(offset, first);
    forall s, t | s <= t ensures z.Month(s) <= z.Month(t) {
      DayMonotone(s + offset, t + offset);
    }
  }

  lemma DayMonotone(s: int, t: int)
    requires s <= t
    ensures s / DAY <= t / DAY
  {
  }

  lemma FixedStart(offset: int, first: int -> int, clock: int, day: int)
    ensures var z := Fixed(offset, first);
            z.StartOfMonth(clock, day) == (clock / DAY - (z.LocalDay(day) - z.Month(day))) * DAY
  {
  }

  /** With one offset, a check counts exactly the rows from the UTC midnight that lies as many days before its
      first look at the clock as the local day of the month at its second, up to its third. */
  lemma FixedCountsExactly(offset: int, first: int -> int, clock: int, day: int, end: int, t: int)
    ensures var z := Fixed(offset, first);
            var local := (day + offset) / 86_400_000_000;
            z.Counts(z.StartOfMonth(clock, day), end, t) <==>
              (clock / 86_400_000_000 - (local - first(local))) * 86_400_000_000 <= t <= end
  {
  }

  /** In UTC, a check whose first two looks are on one day counts exactly the rows of the days from the first
      of the month up to its third look. */
  lemma UtcCountsExactly(first: int -> int, clock: int, day: int, end: int, t: int)
    requires clock / 86_400_000_000 == day / 86_400_000_000
    ensures var z := Fixed(0, first);
            z.Counts(z.StartOfMonth(clock, day), end, t) <==>
              first(day / 86_400_000_000) <= t / 86_400_000_000 && t <= end
  {
    FixedCountsExactly(0, first, clock, day, end, t);
  }

  /** Tallies and numbers count places. */
  lemma {:induction false} TallyIsCardinality(times: seq<int>, p: Period)
    ensures Tally(times, p) == |set i: nat | i < |times| && p.Has(times[i])|
    decreases |times|
  {
    hide Period.Has;
    var all := set i: nat | i < |times| && p.Has(times[i]);
    if times == [] {
      assert all == {};
    } else {
      var m := |times| - 1;
      TallyIsCardinality(times[..m], p);
      var before := set i: nat | i < m && p.Has(times[..m][i]);
      assert Tally(times, p) == |before| + if p.Has(times[m]) then 1 else 0;
      hide Tally;
      forall i: nat ensures i in all <==> i in before || (i == m && p.Has(times[m])) {
        assert i < m ==> times[..m][i] == times[i];
      }
      assert all == before + if p.Has(times[m]) then {m} else {};
    }
  }

  lemma {:induction false} NumberIsCardinality(requests: seq<Request>, p: Period, statuses: set<Status>)
    ensures Number(requests, p, statuses)
         == |set i: nat | i < |requests| && p.Has(requests[i].end) && requests[i].status in statuses|
    decreases |requests|
  {
    hide Period.Has;
    var all := set i: nat | i < |requests| && p.Has(requests[i].end) && requests[i].status in statuses;
    if requests == [] {
      assert all == {};
    } else {
      var m := |requests| - 1;
      NumberIsCardinality(requests[..m], p, statuses);
      var before := set i: nat | i < m && p.Has(requests[..m][i].end) && requests[..m][i].status in statuses;
      var last := p.Has(requests[m].end) && requests[m].status in statuses;
      assert Number(requests, p, statuses) == |before| + if last then 1 else 0;
      hide Number;
      forall i: nat ensures i in all <==> i in before || (i == m && last) {
        assert i < m ==> requests[..m][i] == requests[i];
      }
      assert all == before + if last then {m} else {};
    }
  }

  /** In UTC no window begins after the first midnight of the month in which it ends. */
  lemma UtcCovers(first: int -> int)
    requires Calendar(first)
    ensures Fixed(0, first).Covers()
  {
    var z := Fixed(0, first);
    forall clock, day, t, s | clock <= day <= t && s <= t && z.Month(s) == z.Month(t)
      ensures z.Counts(z.StartOfMonth(clock, day), t, s)
    {
      FixedStart(0, first, clock, day);
      DayMonotone(clock, day);
      DayMonotone(day, t);
      var d := clock / DAY - (z.LocalDay(day) - z.Month(day));
      assert d <= z.Month(day) <= z.Month(t) == z.Month(s) <= s / DAY;
      assert d * DAY <= s / DAY * DAY <= s;
    }
  }

  /** Elsewhere some instant of a local month lies before the window of the next, which begins with
      a midnight in UTC. */
  lemma ElsewhereMisses(offset: int, first: int -> int)
    requires Calendar(first) && 0 < Abs(offset) < DAY
    ensures !Fixed(offset, first).Covers()
  {
    var z := Fixed(offset, first);
    var day := first(0);
    var midnight := if offset > 0 then day else day + 1;
    var t := midnight * DAY;
    DivModUnique(DAY, midnight, 0);
    DivModUnique(DAY, day, if offset > 0 then offset else DAY + offset);
    DivModUnique(DAY, day, if offset > 0 then offset - 1 else DAY + offset - 1);
    assert z.LocalDay(t) == z.LocalDay(t - 1) == day;
    FixedStart(offset, first, t, t);
    assert z.Month(t - 1) == z.Month(t) && z.StartOfMonth(t, t) == t;
    assert !z.Counts(z.StartOfMonth(t, t), t, t - 1);
  }

  /** With one offset from UTC all year, an organization is admitted at most max - 1 times in every local
      month, and once more for each request in flight or without a row, exactly when the offset is zero. */
  lemma QuotaExactly(offset: int, first: int -> int, max: int, p: nat)
    requires Calendar(first) && Abs(offset) < DAY && max > 0 && p > 0
    ensures AlwaysWithin(Fixed(offset, first), max, p) <==> offset == 0
  {
    FixedMonths(offset, first);
    WindowExactly(Fixed(offset, first), max, p);
    if offset == 0 {
      UtcCovers(first);
    } else {
      ElsewhereMisses(offset, first);
    }
  }

  // ----- the service and its middleware

  datatype Organization = Organization(active: bool, maxRequests: int)

  datatype ApiKey = ApiKey(organization: nat, active: bool, expiresAt: Option<int>) {
    predicate Expired(now: int) { expiresAt.Some? && now > expiresAt.value }
  }

  datatype Response = Skipped | MissingKey | InvalidKey | Inactive | Expired | RateLimited | Admitted

  datatype Usage = Usage(organization: nat, createdAt: int)

  /** The creation times of an organization's rows. */
  function RowsOf(table: seq<Usage>, organization: nat): seq<int> {
    if table == [] then [] else
      var m := |table| - 1;
      RowsOf(table[..m], organization) + if table[m].organization == organization then [table[m].createdAt] else []
  }

  lemma RowsOfAppend(table: seq<Usage>, row: Usage, organization: nat)
    ensures RowsOf(table + [row], organization)
         == RowsOf(table, organization) + if row.organization == organization then [row.createdAt] else []
  {
    assert (table + [row])[..|table|] == table;
  }

  lemma CountOneMore(table: seq<Usage>, row: Usage, organization: nat, p: Period)
    ensures Tally(RowsOf(table + [row], organization), p)
         == Tally(RowsOf(table, organization), p)
            + if row.organization == organization && p.Has(row.createdAt) then 1 else 0
  {
    RowsOfAppend(table, row, organization);
    TallyAppend(RowsOf(table, organization), row.createdAt, p);
    hide RowsOf, Tally;
    assert RowsOf(table, organization) + [] == RowsOf(table, organization);
  }

  class Service {
    const zone: Zone
    const organizations: map<nat, Organization>
    var usage: seq<Usage>
    ghost var requests: map<nat, seq<Request>>

    constructor (zone: Zone, organizations: map<nat, Organization>)
      ensures this.zone == zone && this.organizations == organizations
      ensures forall org :: View(org) == EMPTY
    {
      this.zone, this.organizations := zone, organizations;
      usage, requests := [], map[];
    }

    /** An organization's part of the state. */
    ghost function View(org: nat): State
      reads this
    {
      State(RowsOf(usage, org), if org in requests then requests[org] else [])
    }

    /** The rows of the table that belong to the organization and whose clock readings lie between those of
        two instants. */
    ghost function RowsBetween(org: nat, start: int, end: int): set<nat>
      reads this
    {
      set i: nat | i < |usage| && usage[i].organization == org
                   && start + zone.offset(start)
                      <= usage[i].createdAt + zone.offset(usage[i].createdAt)
                      <= end + zone.offset(end)
    }

    lemma NextRow(org: nat, start: int, end: int, n: nat)
      requires n < |usage|
      ensures |set i | i in RowsBetween(org, start, end) && i < n + 1|
           == |set i | i in RowsBetween(org, start, end) && i < n|
              + if n in RowsBetween(org, start, end) then 1 else 0
    {
      var rows := RowsBetween(org, start, end);
      assert (set i | i in rows && i < n + 1) == (set i | i in rows && i < n) + if n in rows then {n} else {};
    }

    /** The query that counts an organization's rows; the column has no zone, so clock readings are
        compared. */
    method CountUsage(org: nat, startTime: int, endTime: int) returns (count: nat)
      ensures count == Tally(View(org).rows, Window(zone, startTime, endTime))
      ensures count == |RowsBetween(org, startTime, endTime)|
    {
      ghost var rows := RowsBetween(org, startTime, endTime);
      count := 0;
      assert (set j | j in rows && j < 0) == {};
      for i := 0 to |usage|
        invariant count == Tally(RowsOf(usage[..i], org), Window(zone, startTime, endTime))
        invariant count == |set j | j in rows && j < i|
      {
        assert usage[..i + 1] == usage[..i] + [usage[i]];
        CountOneMore(usage[..i], usage[i], org, Window(zone, startTime, endTime));
        NextRow(org, startTime, endTime, i);
        hide RowsOf, Tally;
        var createdAt := zone.Reading(usage[i].createdAt);
        if usage[i].organization == org && createdAt >= zone.Reading(startTime) && createdAt <= zone.Reading(endTime) {
          count := count + 1;
        }
      }
      assert usage[..|usage|] == usage;
      assert (set j | j in rows && j < |usage|) == rows;
    }

    /** An error is a failed query, an unknown organization or a reached limit. */
    method CheckRateLimit(org: nat, clock: int, day: int, end: int, answered: bool) returns (ok: bool)
      ensures ok == (org in organizations && Admits(zone, organizations[org].maxRequests, View(org).rows,
                                                    zone.StartOfMonth(clock, day), end, answered))
      ensures ok <==>
                && answered && org in organizations
                && |RowsBetween(org, zone.StartOfMonth(clock, day), end)| < organizations[org].maxRequests
    {
      if !answered {
        return false;
      }
      var startOfMonth := zone.StartOfMonth(clock, day);
      var count := CountUsage(org, startOfMonth, end);
      if org !in organizations {
        return false;
      }
      return count < organizations[org].maxRequests;
    }

    /** Writes the row of a waiting admitted request, or fails to; the middleware is the only caller. */
    method RecordAPIUsage(org: nat, ghost request: nat, createdAt: int, ghost now: int, inserted: bool)
      requires Enabled(View(org), Record(now, request, createdAt, inserted))
      modifies this
      ensures forall max :: View(org) == Apply(zone, max, old(View(org)), Record(now, request, createdAt, inserted))
      ensures forall other | other != org :: View(other) == old(View(other))
    {
      forall any {
        RowsOfAppend(usage, Usage(org, createdAt), any);
      }
      hide RowsOf;
      ghost var rs := requests[org];
      requests := requests[org := rs[request := rs[request].(status := if inserted then Recorded else Lost)]];
      if inserted {
        usage := usage + [Usage(org, createdAt)];
      }
    }

    /** What a request that reaches the quota does to the state: it looks at the clock and is decided. */
    ghost function Decided(s: State, max: int, clock: int, day: int, end: int, at: int, answered: bool): State
      requires clock <= day <= end
    {
      var begun := Apply(zone, max, s, Begin(end, clock, day));
      Apply(zone, max, begun, Decide(at, |s.requests|, answered))
    }

    /** A key is valid when its row is found, it is active and has not expired, and its organization exists. */
    predicate Known(found: Option<ApiKey>, now: int) {
      found.Some? && found.value.active && !found.value.Expired(now) && found.value.organization in organizations
    }

    /** The checks in order. A request that passes those before the quota begins and is decided, and the
        quota decides; any other request changes nothing. */
    method APIKeyAuth(skip: bool, apiKey: string, lookup: string -> Option<ApiKey>, validatedAt: int, now: int,
        clock: int, day: int, end: int, ghost at: int, answered: bool) returns (r: Response)
      requires clock <= day <= end
      modifies this`requests
      ensures r.Skipped? <==> skip
      ensures r.MissingKey? <==> !skip && apiKey == ""
      ensures r.InvalidKey? <==> !skip && apiKey != "" && !Known(lookup(apiKey), validatedAt)
      ensures r.InvalidKey? <==>
                && !skip && apiKey != ""
                && (lookup(apiKey).Some? ==>
                      var key := lookup(apiKey).value;
                      || !key.active || key.organization !in organizations
                      || (key.expiresAt.Some? && validatedAt > key.expiresAt.value))
      ensures r in {Inactive, Expired, RateLimited, Admitted} ==>
                && Known(lookup(apiKey), validatedAt)
                && var key := lookup(apiKey).value;
                && var org := organizations[key.organization];
                && var s := old(View(key.organization));
                && (r.Inactive? <==> !org.active)
                && (r.Expired? <==> org.active && key.expiresAt.Some? && now > key.expiresAt.value)
                && (r in {RateLimited, Admitted} ==>
                      && var t := Decided(s, org.maxRequests, clock, day, end, at, answered);
                      && View(key.organization) == t
                      && (r.Admitted? <==> t.requests[|s.requests|].status == Waiting)
                      && (r.Admitted? <==>
                            && answered
                            && |RowsBetween(key.organization, zone.StartOfMonth(clock, day), end)| < org.maxRequests))
      ensures forall other | r in {RateLimited, Admitted} ==> other != lookup(apiKey).value.organization ::
                View(other) == old(View(other))
    {
      if skip {
        return Skipped;
      }
      if apiKey == "" {
        return MissingKey;
      }
      var found := lookup(apiKey);
      if !Known(found, validatedAt) {
        return InvalidKey;
      }
      var key := found.value;
      var org := organizations[key.organization];
      if !org.active {
        return Inactive;
      }
      if key.Expired(now) {
        return Expired;
      }
      var ok := CheckRateLimit(key.organization, clock, day, end, answered);
      ghost var s := View(key.organization);
      ghost var request := Request(zone.StartOfMonth(clock, day), end, if ok then Waiting else Refused);
      requests := requests[key.organization := s.requests + [request]];
      return if ok then Admitted else RateLimited;
    }
  }
}
