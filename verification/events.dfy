/**
 * The event record shared by the whole application.
 *
 * The record is generic in how its date is held: the event form reads and writes the date as
 * text ("2024-03-01T09:00") and compares it as text, while the expander, the drag handler and
 * the calendar grid work on the interpreted date-time. For `recurrence` and `description` the
 * empty string stands for every falsy JavaScript value (`undefined`, `null`, `''`), which the
 * source treats alike.
 */
module Events {
  import opened Wrappers

  /** A custom recurrence: every `interval` `unit`s, the unit being "days", "weeks" or "months". */
  datatype CustomRule = CustomRule(interval: int, unit: string)

  datatype Event<D> = Event(
    id: int,
    title: string,
    date: D,
    description: string,
    recurrence: string,
    color: string,
    custom: Option<CustomRule>)

  /** An event repeats unless its recurrence is missing or "none". */
  predicate IsRecurring<D>(e: Event<D>) {
    !(e.recurrence == "" || e.recurrence == "none")
  }

  /** The units a custom rule may name. */
  predicate KnownUnit(unit: string) {
    unit == "days" || unit == "weeks" || unit == "months"
  }

  /**
   * A custom rule that steps has an interval of at least 1 (the form's `min="1"`); with a
   * smaller one the source's walk never reaches the end of the month.
   */
  predicate PositiveInterval<D>(e: Event<D>) {
    e.recurrence == "custom" && e.custom.Some? && KnownUnit(e.custom.value.unit) ==> e.custom.value.interval >= 1
  }

  /** No two entries of the list share an id. */
  ghost predicate UniqueIds<D>(events: seq<Event<D>>) {
    forall i, j :: 0 <= i < j < |events| ==> events[i].id != events[j].id
  }

  /** The ids of the list, in order. */
  function Ids<D>(events: seq<Event<D>>): (r: seq<int>)
    ensures |r| == |events| && forall i :: 0 <= i < |events| ==> r[i] == events[i].id
  {
    if events == [] then [] else [events[0].id] + Ids(events[1..])
  }
}
