/**
 * The recurrence expander of the application component: it turns the list of events into the
 * occurrences shown for one month. A non-recurring event passes through as it is; a recurring
 * one is walked forward from its own date in steps of its rule, and every step that lands in
 * the month becomes an occurrence, a copy of the event carrying that step's date.
 */
module Expansion {
  import opened Wrappers
  import opened Dates
  import opened Events
  import opened Seqs

  /** The rules under which the walk takes a step; under any other it stops after one check. */
  predicate HasStep<D>(e: Event<D>) {
    || e.recurrence == "daily"
    || e.recurrence == "weekly"
    || e.recurrence == "monthly"
    || (e.recurrence == "custom" && e.custom.Some? && KnownUnit(e.custom.value.unit))
  }

  predicate AllPositiveIntervals<D>(events: seq<Event<D>>) {
    forall i :: 0 <= i < |events| ==> PositiveInterval(events[i])
  }

  /** The date `d` lies in the window [ws, we], both ends included. */
  predicate InWindow(d: Date, ws: Date, we: Date) {
    !IsBefore(d, ws) && !IsAfter(d, we)
  }

  /** One step of the walk: the next date, or None where the source breaks out of the loop. */
  function Step(e: Event<Date>, current: Date): (r: Option<Date>)
    requires PositiveInterval(e)
    ensures r.Some? <==> HasStep(e)
    ensures r.Some? ==> IsAfter(r.value, current) && r.value.minute == current.minute
  {
    if e.recurrence == "daily" then Some(AddDays(current, 1))
    else if e.recurrence == "weekly" then Some(AddWeeks(current, 1))
    else if e.recurrence == "monthly" then Some(AddMonths(current, 1))
    else if e.recurrence == "custom" && e.custom.Some? then
      var rule := e.custom.value;
      if rule.unit == "days" then Some(AddDays(current, rule.interval))
      else if rule.unit == "weeks" then Some(AddWeeks(current, rule.interval))
      else if rule.unit == "months" then Some(AddMonths(current, rule.interval))
      else None
    else None
  }

  /** The occurrences the walk emits from `current` on. */
  function Walk(e: Event<Date>, current: Date, ws: Date, we: Date): seq<Event<Date>>
    requires PositiveInterval(e)
    decreases we.month - current.month, 31 - current.day
  {
    if IsAfter(current, we) then []
    else
      var here := if IsBefore(current, ws) then [] else [e.(date := current)];
      match Step(e, current)
      case None => here
      case Some(next) => here + Walk(e, next, ws, we)
  }

  /** One turn of the loop: emit `c` if it is in the window, then go on from the next step. */
  lemma WalkUnfold(e: Event<Date>, c: Date, ws: Date, we: Date)
    requires PositiveInterval(e) && !IsAfter(c, we)
    ensures Walk(e, c, ws, we) == (if IsBefore(c, ws) then [] else [e.(date := c)])
      + (if Step(e, c).None? then [] else Walk(e, Step(e, c).value, ws, we))
  {
  }

  /**
   * One turn of the loop keeps the collected occurrences plus the rest of the walk equal to
   * `target`: after emitting `c` (when in the window), either the rule has no step and
   * nothing is left, or the rest is the walk from the next step.
   */
  lemma WalkTurn(e: Event<Date>, c: Date, ws: Date, we: Date, acc: seq<Event<Date>>, target: seq<Event<Date>>)
    returns (emitted: seq<Event<Date>>)
    requires PositiveInterval(e) && !IsAfter(c, we) && acc + Walk(e, c, ws, we) == target
    ensures emitted == if IsBefore(c, ws) then acc else acc + [e.(date := c)]
    ensures Step(e, c).None? ==> emitted == target
    ensures Step(e, c).Some? ==> emitted + Walk(e, Step(e, c).value, ws, we) == target
  {
    var here := if IsBefore(c, ws) then [] else [e.(date := c)];
    var rest := if Step(e, c).None? then [] else Walk(e, Step(e, c).value, ws, we);
    WalkUnfold(e, c, ws, we);
    AppendAssoc(acc, here, rest);
    emitted := acc + here;
  }

  /**
   * Every occurrence of the walk lies in the window, is a copy of the event that differs at
   * most in its date, and comes no earlier than where the walk started; the occurrences are
   * in strictly increasing order of date.
   */
  lemma {:induction false} WalkShape(e: Event<Date>, current: Date, ws: Date, we: Date)
    requires PositiveInterval(e)
    ensures var r := Walk(e, current, ws, we);
      && (forall i :: 0 <= i < |r| ==> InWindow(r[i].date, ws, we) && r[i] == e.(date := r[i].date))
      && (forall i :: 0 <= i < |r| ==> !IsBefore(r[i].date, current))
      && (forall i, j :: 0 <= i < j < |r| ==> IsBefore(r[i].date, r[j].date))
    decreases we.month - current.month, 31 - current.day
  {
    if !IsAfter(current, we) {
      WalkUnfold(e, current, ws, we);
      var here := if IsBefore(current, ws) then [] else [e.(date := current)];
      if Step(e, current).Some? {
        var next := Step(e, current).value;
        var rest := Walk(e, next, ws, we);
        WalkShape(e, next, ws, we);
        assert Walk(e, current, ws, we) == here + rest;
        assert forall j :: 0 <= j < |rest| ==> IsBefore(current, rest[j].date);
      }
    }
  }

  /** The occurrences of one event in the window [ws, we]. */
  function Occurrences(e: Event<Date>, ws: Date, we: Date): seq<Event<Date>>
    requires PositiveInterval(e)
  {
    if !IsRecurring(e) then [e]
    else if IsAfter(e.date, we) then []
    else Walk(e, e.date, ws, we)
  }

  /**
   * A non-recurring event yields itself, whatever the window. A recurring one yields copies
   * of itself that differ only in date, every date in the window and each later than the
   * one before; anchored after the window, it yields nothing.
   */
  lemma OccurrencesShape(e: Event<Date>, ws: Date, we: Date)
    requires PositiveInterval(e)
    ensures var r := Occurrences(e, ws, we);
      && (!IsRecurring(e) ==> r == [e])
      && (IsRecurring(e) ==> forall i :: 0 <= i < |r| ==> InWindow(r[i].date, ws, we) && r[i] == e.(date := r[i].date))
      && (IsRecurring(e) ==> forall i, j :: 0 <= i < j < |r| ==> IsBefore(r[i].date, r[j].date))
      && (IsRecurring(e) && IsAfter(e.date, we) ==> r == [])
  {
    if IsRecurring(e) && !IsAfter(e.date, we) {
      assert Occurrences(e, ws, we) == Walk(e, e.date, ws, we);
      WalkShape(e, e.date, ws, we);
    }
  }

  /** The expansion of a list: each event's occurrences, in the order of the events. */
  function Expand(events: seq<Event<Date>>, ws: Date, we: Date): seq<Event<Date>>
    requires AllPositiveIntervals(events)
  {
    if events == [] then []
    else Expand(events[..|events| - 1], ws, we) + Occurrences(events[|events| - 1], ws, we)
  }

  lemma ExpandSnoc(events: seq<Event<Date>>, n: nat, ws: Date, we: Date)
    requires n < |events| && AllPositiveIntervals(events)
    ensures Expand(events[..n + 1], ws, we) == Expand(events[..n], ws, we) + Occurrences(events[n], ws, we)
  {
    assert events[..n + 1][..n] == events[..n];
  }

  /** The expansion of two lists one after the other is the two expansions one after the other. */
  lemma {:induction false} ExpandAppend(a: seq<Event<Date>>, b: seq<Event<Date>>, ws: Date, we: Date)
    requires AllPositiveIntervals(a) && AllPositiveIntervals(b)
    ensures AllPositiveIntervals(a + b)
    ensures Expand(a + b, ws, we) == Expand(a, ws, we) + Expand(b, ws, we)
    decreases |b|
  {
    if b == [] {
      assert a + b == a;
    } else {
      var b' := b[..|b| - 1];
      assert (a + b)[..|a + b| - 1] == a + b';
      assert (a + b)[|a + b| - 1] == b[|b| - 1];
      ExpandAppend(a, b', ws, we);
      AppendAssoc(Expand(a, ws, we), Expand(b', ws, we), Occurrences(b[|b| - 1], ws, we));
    }
  }

  /**
   * Every occurrence comes from one of the events: it is that event with at most its date
   * changed, and if that event repeats, the date is in the window.
   */
  lemma {:induction false} ExpandSources(events: seq<Event<Date>>, ws: Date, we: Date, x: Event<Date>)
    requires AllPositiveIntervals(events) && x in Expand(events, ws, we)
    ensures exists i :: (0 <= i < |events| && x == events[i].(date := x.date)
      && (IsRecurring(events[i]) ==> InWindow(x.date, ws, we))
      && (!IsRecurring(events[i]) ==> x == events[i]))
    decreases |events|
  {
    var n := |events| - 1;
    var init := events[..n];
    if x in Expand(init, ws, we) {
      ExpandSources(init, ws, we, x);
      var i :| 0 <= i < |init| && x == init[i].(date := x.date)
        && (IsRecurring(init[i]) ==> InWindow(x.date, ws, we))
        && (!IsRecurring(init[i]) ==> x == init[i]);
      assert init[i] == events[i];
    } else {
      var r := Occurrences(events[n], ws, we);
      OccurrencesShape(events[n], ws, we);
      var k :| 0 <= k < |r| && r[k] == x;
    }
  }

  /**
   * A non-repeating event appears in the expansion exactly once and unchanged, whatever the
   * window: the expansion is the expansion of the events before it, then the event, then the
   * expansion of the events after it, and when ids are unique no other occurrence has its id.
   */
  lemma PassThroughOnce(events: seq<Event<Date>>, i: int, ws: Date, we: Date)
    requires AllPositiveIntervals(events) && 0 <= i < |events| && !IsRecurring(events[i])
    ensures AllPositiveIntervals(events[..i]) && AllPositiveIntervals(events[i + 1..])
    ensures Expand(events, ws, we) == Expand(events[..i], ws, we) + [events[i]] + Expand(events[i + 1..], ws, we)
    ensures UniqueIds(events) ==>
      && (forall x :: x in Expand(events[..i], ws, we) ==> x.id != events[i].id)
      && (forall x :: x in Expand(events[i + 1..], ws, we) ==> x.id != events[i].id)
  {
    var before, after := events[..i], events[i + 1..];
    assert events == before + [events[i]] + after;
    ExpandAppend(before, [events[i]], ws, we);
    ExpandAppend(before + [events[i]], after, ws, we);
    assert Expand([events[i]], ws, we) == [events[i]] by {
      assert [events[i]][..0] == [];
    }
    if UniqueIds(events) {
      forall x | x in Expand(before, ws, we)
        ensures x.id != events[i].id
      {
        ExpandSources(before, ws, we, x);
      }
      forall x | x in Expand(after, ws, we)
        ensures x.id != events[i].id
      {
        ExpandSources(after, ws, we, x);
        var j :| 0 <= j < |after| && x == after[j].(date := x.date)
          && (IsRecurring(after[j]) ==> InWindow(x.date, ws, we))
          && (!IsRecurring(after[j]) ==> x == after[j]);
        assert after[j] == events[i + 1 + j];
      }
    }
  }

  /**
   * A repeating event whose rule has no step (an unknown recurrence, a custom one without a
   * rule or with an unknown unit) yields at most one occurrence: the event itself, when its
   * own date is in the window.
   */
  lemma NoStepAtMostAnchor(e: Event<Date>, ws: Date, we: Date)
    requires IsRecurring(e) && !HasStep(e)
    ensures Occurrences(e, ws, we) == if InWindow(e.date, ws, we) then [e] else []
  {
    if !IsAfter(e.date, we) {
      WalkUnfold(e, e.date, ws, we);
      assert e.(date := e.date) == e;
    }
  }

  /**
   * The `k`-th date a walk from `c` reaches when nothing stops it: `c` itself for k = 0, and
   * None once the rule has no step. Each is no earlier than `c`, and later when k > 0.
   */
  function StepPoint(e: Event<Date>, c: Date, k: nat): (r: Option<Date>)
    requires PositiveInterval(e)
    ensures r.Some? ==> !IsBefore(r.value, c) && r.value.minute == c.minute
    ensures r.Some? && k > 0 ==> IsAfter(r.value, c)
    ensures r.Some? <==> k == 0 || HasStep(e)
    decreases k
  {
    if k == 0 then Some(c)
    else match Step(e, c)
      case None => None
      case Some(next) => StepPoint(e, next, k - 1)
  }

  /** Every occurrence the walk from `c` yields is dated at one of the step points of `c`. */
  lemma {:induction false} WalkSound(e: Event<Date>, c: Date, ws: Date, we: Date, x: Event<Date>)
    requires PositiveInterval(e) && x in Walk(e, c, ws, we)
    ensures exists k: nat :: StepPoint(e, c, k) == Some(x.date)
    decreases we.month - c.month, 31 - c.day
  {
    WalkUnfold(e, c, ws, we);
    if x.date == c {
      assert StepPoint(e, c, 0) == Some(x.date);
    } else {
      var next := Step(e, c).value;
      WalkSound(e, next, ws, we, x);
      var k: nat :| StepPoint(e, next, k) == Some(x.date);
      assert StepPoint(e, c, k + 1) == Some(x.date);
    }
  }

  /** Every step point of `c` that lies in the window is the date of an occurrence of the walk. */
  lemma {:induction false} WalkComplete(e: Event<Date>, c: Date, ws: Date, we: Date, k: nat)
    requires PositiveInterval(e)
    ensures StepPoint(e, c, k).Some? && InWindow(StepPoint(e, c, k).value, ws, we) ==>
      e.(date := StepPoint(e, c, k).value) in Walk(e, c, ws, we)
    decreases k
  {
    if StepPoint(e, c, k).Some? && InWindow(StepPoint(e, c, k).value, ws, we) {
      var d := StepPoint(e, c, k).value;
      assert !IsAfter(c, we);
      WalkUnfold(e, c, ws, we);
      if k > 0 {
        var next := Step(e, c).value;
        assert StepPoint(e, next, k - 1) == Some(d);
        WalkComplete(e, next, ws, we, k - 1);
      }
    }
  }

  /**
   * The walk from `c` yields exactly the copies of the event dated at the step points of `c`
   * that lie in the window.
   */
  lemma WalkExactly(e: Event<Date>, c: Date, ws: Date, we: Date, x: Event<Date>)
    requires PositiveInterval(e)
    ensures x in Walk(e, c, ws, we) <==>
      x == e.(date := x.date) && InWindow(x.date, ws, we) && exists k: nat :: StepPoint(e, c, k) == Some(x.date)
  {
    if x in Walk(e, c, ws, we) {
      WalkShape(e, c, ws, we);
      WalkSound(e, c, ws, we, x);
    }
    if x == e.(date := x.date) && InWindow(x.date, ws, we) {
      if k: nat :| StepPoint(e, c, k) == Some(x.date) {
        WalkComplete(e, c, ws, we, k);
      }
    }
  }

  /**
   * A repeating event's occurrences are exactly the copies of it dated at the step points of
   * its own date that lie in the window.
   */
  lemma RecurringOccurrences(e: Event<Date>, ws: Date, we: Date, x: Event<Date>)
    requires PositiveInterval(e) && IsRecurring(e)
    ensures x in Occurrences(e, ws, we) <==>
      x == e.(date := x.date) && InWindow(x.date, ws, we) && exists k: nat :: StepPoint(e, e.date, k) == Some(x.date)
  {
    assert Occurrences(e, ws, we) == Walk(e, e.date, ws, we);
    WalkExactly(e, e.date, ws, we, x);
  }

  /** The rules that step by a whole number of days: daily, weekly, and custom in days or weeks. */
  predicate StepsByDays<D>(e: Event<D>) {
    || e.recurrence == "daily"
    || e.recurrence == "weekly"
    || (e.recurrence == "custom" && e.custom.Some? && (e.custom.value.unit == "days" || e.custom.value.unit == "weeks"))
  }

  /** The number of days one step of such a rule covers. */
  function DayStride<D>(e: Event<D>): (s: nat)
    requires PositiveInterval(e) && StepsByDays(e)
    ensures s >= 1
  {
    if e.recurrence == "daily" then 1
    else if e.recurrence == "weekly" then 7
    else if e.custom.value.unit == "days" then e.custom.value.interval
    else 7 * e.custom.value.interval
  }

  /** Under a rule that steps by days, one step is one stride of days. */
  lemma DayStrideStep(e: Event<Date>, c: Date)
    requires PositiveInterval(e) && StepsByDays(e)
    ensures Step(e, c) == Some(AddDays(c, DayStride(e)))
  {
  }

  /** Under a rule that steps by days, the `k`-th step point is `k` strides of days on. */
  lemma {:induction false} DayStridePoints(e: Event<Date>, c: Date, k: nat)
    requires PositiveInterval(e) && StepsByDays(e)
    ensures StepPoint(e, c, k) == Some(AddDays(c, k * DayStride(e)))
    decreases k
  {
    if k > 0 {
      var s := DayStride(e);
      var next := AddDays(c, s);
      DayStrideStep(e, c);
      assert StepPoint(e, c, k) == StepPoint(e, next, k - 1);
      DayStridePoints(e, next, k - 1);
      StrideSum(k, s);
      var rest: nat := (k - 1) * s;
      AddDaysAdd(c, s, rest);
      assert AddDays(next, rest) == AddDays(c, k * s);
    }
  }

  lemma StrideSum(k: nat, s: nat)
    requires k > 0
    ensures (k - 1) * s >= 0 && s + (k - 1) * s == k * s
  {
  }

  /** The number of months one step of a monthly rule covers. */
  function MonthStride<D>(e: Event<D>): (s: nat)
    requires PositiveInterval(e) && (e.recurrence == "monthly" || (e.recurrence == "custom" && e.custom.Some? && e.custom.value.unit == "months"))
    ensures s >= 1
  {
    if e.recurrence == "monthly" then 1 else e.custom.value.interval
  }

  /**
   * Under a rule that steps by months, the `k`-th step point is `k` strides of months on, at
   * the same time of day, on a day of the month no later than the anchor's; the day is the
   * anchor's whenever that is at most 28. (Each step clamps to the end of a short month and
   * the walk goes on from the clamped day, so an anchor on the 31st drifts.)
   */
  lemma {:induction false} MonthStridePoints(e: Event<Date>, c: Date, k: nat)
    requires PositiveInterval(e) && (e.recurrence == "monthly" || (e.recurrence == "custom" && e.custom.Some? && e.custom.value.unit == "months"))
    ensures StepPoint(e, c, k).Some?
    ensures var p := StepPoint(e, c, k).value;
      && p.month == c.month + k * MonthStride(e) && p.minute == c.minute
      && p.day <= c.day && (c.day <= 28 ==> p.day == c.day)
    decreases k
  {
    var s := MonthStride(e);
    if k > 0 {
      var next := AddMonths(c, s);
      assert Step(e, c) == Some(next);
      MonthStridePoints(e, next, k - 1);
      StrideSum(k, s);
    }
  }

  /** getExpandedEvents: the expansion of `baseEvents` over the month that contains `now`. */
  method GetExpandedEvents(baseEvents: seq<Event<Date>>, now: Date) returns (expanded: seq<Event<Date>>)
    requires AllPositiveIntervals(baseEvents)
    ensures expanded == Expand(baseEvents, StartOfMonth(now), EndOfMonth(now))
  {
    var monthStart := StartOfMonth(now);
    var monthEnd := EndOfMonth(now);
    expanded := [];
    for n := 0 to |baseEvents|
      invariant expanded == Expand(baseEvents[..n], monthStart, monthEnd)
    {
      var event := baseEvents[n];
      ExpandSnoc(baseEvents, n, monthStart, monthEnd);
      if !IsRecurring(event) {
        expanded := expanded + [event];
        continue;
      }
      if IsAfter(event.date, monthEnd) {
        continue;
      }
      expanded := AppendWalk(expanded, event, monthStart, monthEnd);
    }
    assert baseEvents[..|baseEvents|] == baseEvents;
  }

  /**
   * The inner `while` loop of getExpandedEvents for one recurring event anchored no later
   * than the month's end: walks from the anchor, pushing each date in the month onto
   * `acc`, until the date passes the month's end or the rule has no step.
   */
  method AppendWalk(acc: seq<Event<Date>>, event: Event<Date>, monthStart: Date, monthEnd: Date)
    returns (expanded: seq<Event<Date>>)
    requires PositiveInterval(event) && IsRecurring(event) && !IsAfter(event.date, monthEnd)
    ensures expanded == acc + Occurrences(event, monthStart, monthEnd)
  {
    expanded := acc;
    ghost var target := acc + Occurrences(event, monthStart, monthEnd);
    var current := event.date;
    while !IsAfter(current, monthEnd)
      invariant expanded + Walk(event, current, monthStart, monthEnd) == target
      decreases monthEnd.month - current.month, 31 - current.day
    {
      ghost var step := Step(event, current);
      ghost var emitted := WalkTurn(event, current, monthStart, monthEnd, expanded, target);
      if !IsBefore(current, monthStart) {
        expanded := expanded + [event.(date := current)];
      }
      assert expanded == emitted;
      if event.recurrence == "daily" {
        current := AddDays(current, 1);
      } else if event.recurrence == "weekly" {
        current := AddWeeks(current, 1);
      } else if event.recurrence == "monthly" {
        current := AddMonths(current, 1);
      } else if event.recurrence == "custom" && event.custom.Some? {
        var rule := event.custom.value;
        if rule.unit == "days" {
          current := AddDays(current, rule.interval);
        } else if rule.unit == "weeks" {
          current := AddWeeks(current, rule.interval);
        } else if rule.unit == "months" {
          current := AddMonths(current, rule.interval);
        } else {
          assert step.None?;
          break;
        }
      } else {
        assert step.None?;
        break;
      }
      assert step == Some(current);
    }
  }
}
