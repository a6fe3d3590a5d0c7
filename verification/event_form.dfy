/**
 * The add/edit form. It derives its fields from the event being edited (or from defaults),
 * and on submit it builds the event record, refuses a second event at the same date and time,
 * and hands the record to the add or the update callback.
 *
 * Here the event's date is the text the form writes, "YYYY-MM-DD" + "T" + "HH:MM", and the
 * conflict check compares that text for equality, as the form does.
 */
module EventForm {
  import opened Wrappers
  import opened Events
  import opened EventList

  /** The first of the colour swatches, the colour of a new event. */
  const DefaultColor: string := "#90cdf4"

  /** The message shown when the date and time are taken. */
  const ConflictMessage: string := "There is already an event at this date and time."

  /**
   * JavaScript `String.prototype.slice(i, j)` for non-negative bounds: both bounds are cut
   * down to the length, and an empty range gives the empty string.
   */
  function Slice(s: string, i: nat, j: nat): (r: string)
    ensures |r| == if i < j && i < |s| then (if j <= |s| then j else |s|) - i else 0
    ensures forall k :: 0 <= k < |r| ==> r[k] == s[i + k]
  {
    var from := if i <= |s| then i else |s|;
    var to := if j <= |s| then j else |s|;
    if from < to then s[from..to] else ""
  }

  /** The state of the form's inputs. */
  datatype Fields = Fields(
    title: string,
    eventDate: string,
    eventTime: string,
    description: string,
    recurrence: string,
    color: string,
    customInterval: int,
    customUnit: string)

  /**
   * The inputs when the form opens: the edited event's values, its date text cut into the
   * date part and the time part; for a new event, the clicked day's date text (the first 10
   * characters of its ISO form) or nothing, at noon, not repeating, in the first colour. The
   * custom rule's inputs start from the event's rule if it has one, else from every 2 weeks.
   */
  function InitialFields(selectedIso: Option<string>, event: Option<Event<string>>): (f: Fields)
    ensures event.None? ==>
      f.title == "" && f.description == "" && f.eventTime == "12:00" && f.recurrence == "none" && f.color == DefaultColor
    ensures event.None? ==> f.eventDate == if selectedIso.Some? then Slice(selectedIso.value, 0, 10) else ""
    ensures event.Some? ==>
      f.title == event.value.title && f.eventDate == Slice(event.value.date, 0, 10) && f.eventTime == Slice(event.value.date, 11, 16)
    ensures event.Some? ==>
      f.description == event.value.description && f.recurrence == event.value.recurrence && f.color == event.value.color
    ensures f.customInterval == if event.Some? && event.value.custom.Some? then event.value.custom.value.interval else 2
    ensures f.customUnit == if event.Some? && event.value.custom.Some? then event.value.custom.value.unit else "weeks"
  {
    match event
    case Some(e) =>
      Fields(e.title, Slice(e.date, 0, 10), Slice(e.date, 11, 16), e.description, e.recurrence, e.color,
        if e.custom.Some? then e.custom.value.interval else 2,
        if e.custom.Some? then e.custom.value.unit else "weeks")
    case None =>
      Fields("", if selectedIso.Some? then Slice(selectedIso.value, 0, 10) else "", "12:00", "", "none", DefaultColor,
        2, "weeks")
  }

  /**
   * The record the form submits, under the given id: the inputs as they are, the date text
   * being the date input, a "T" and the time input, and a custom rule exactly when the
   * recurrence is "custom".
   */
  function BuildEvent(f: Fields, id: int): (r: Event<string>)
    ensures r.id == id && r.title == f.title && r.description == f.description
    ensures r.recurrence == f.recurrence && r.color == f.color
    ensures |r.date| == |f.eventDate| + 1 + |f.eventTime| && r.date[|f.eventDate|] == 'T'
    ensures r.date[..|f.eventDate|] == f.eventDate && r.date[|f.eventDate| + 1..] == f.eventTime
    ensures r.custom.Some? <==> f.recurrence == "custom"
    ensures r.custom.Some? ==> r.custom.value.interval == f.customInterval && r.custom.value.unit == f.customUnit
  {
    Event(id, f.title, f.eventDate + "T" + f.eventTime, f.description, f.recurrence, f.color,
      if f.recurrence == "custom" then Some(CustomRule(f.customInterval, f.customUnit)) else None)
  }

  /**
   * checkConflict: some event other than the one being edited (`editingId`) has exactly the
   * date text `dateTime`.
   */
  function HasConflict(events: seq<Event<string>>, editingId: Option<int>, dateTime: string): (r: bool)
    ensures r <==> exists i :: (0 <= i < |events| && events[i].date == dateTime
      && (editingId.None? || events[i].id != editingId.value))
  {
    if events == [] then false
    else if (editingId.None? || events[0].id != editingId.value) && events[0].date == dateTime then
      assert events[0].date == dateTime;
      true
    else
      var r := HasConflict(events[1..], editingId, dateTime);
      assert forall i :: 1 <= i < |events| ==> events[i] == events[1..][i - 1];
      r
  }

  /**
   * The event being edited is left out of the check: checking while editing `id` is checking
   * the list with every entry of `id` deleted. In particular, re-saving an edited event at
   * its own date and time is no conflict unless another event holds that slot.
   */
  lemma ConflictIgnoresEdited(events: seq<Event<string>>, id: int, dateTime: string)
    ensures HasConflict(events, Some(id), dateTime) == HasConflict(Delete(events, id), None, dateTime)
  {
    var kept := Delete(events, id);
    if HasConflict(events, Some(id), dateTime) {
      var i :| 0 <= i < |events| && events[i].date == dateTime && events[i].id != id;
      DeleteMembers(events, id, events[i]);
      var j :| 0 <= j < |kept| && kept[j] == events[i];
    }
    if HasConflict(kept, None, dateTime) {
      var j :| 0 <= j < |kept| && kept[j].date == dateTime;
      DeleteMembers(events, id, kept[j]);
    }
  }

  /** With 10 characters of date and 5 of time, the two slices of the built date recover them. */
  lemma SliceBuiltDate(eventDate: string, eventTime: string)
    requires |eventDate| == 10 && |eventTime| == 5
    ensures Slice(eventDate + "T" + eventTime, 0, 10) == eventDate
    ensures Slice(eventDate + "T" + eventTime, 11, 16) == eventTime
  {
    var s := eventDate + "T" + eventTime;
    assert s[0..10] == eventDate;
    assert s[11..16] == eventTime;
  }

  /**
   * Opening the form on an event it built gives back the inputs it was built from, when the
   * date and time inputs hold a full date and a full time; the custom rule's inputs come back
   * only for a custom event, and otherwise start again from every 2 weeks.
   */
  lemma BuildThenReload(f: Fields, id: int, selectedIso: Option<string>)
    requires |f.eventDate| == 10 && |f.eventTime| == 5
    ensures InitialFields(selectedIso, Some(BuildEvent(f, id))) ==
      if f.recurrence == "custom" then f else f.(customInterval := 2, customUnit := "weeks")
  {
    SliceBuiltDate(f.eventDate, f.eventTime);
  }

  /** The callback a submit invokes, with the record it passes. */
  datatype Call = NoCall | AddCall(added: Event<string>) | UpdateCall(updated: Event<string>)

  /**
   * The form component: what it was opened with, the current inputs and the conflict
   * message. The inputs' change handlers, which reassign `fields`, are not part of this model.
   */
  class Form {
    const editing: Option<Event<string>>
    const events: seq<Event<string>>
    const hasAddCallback: bool
    const hasUpdateCallback: bool
    var fields: Fields
    var conflict: string

    /** Opens the form on the clicked day's ISO text (if any) and the edited event (if any). */
    constructor(selectedIso: Option<string>, editing: Option<Event<string>>, events: seq<Event<string>>,
                hasAddCallback: bool, hasUpdateCallback: bool)
      ensures this.editing == editing && this.events == events
      ensures this.hasAddCallback == hasAddCallback && this.hasUpdateCallback == hasUpdateCallback
      ensures fields == InitialFields(selectedIso, editing) && conflict == ""
    {
      this.editing := editing;
      this.events := events;
      this.hasAddCallback := hasAddCallback;
      this.hasUpdateCallback := hasUpdateCallback;
      fields := InitialFields(selectedIso, editing);
      conflict := "";
    }

    /** The id the submitted record carries: the edited event's, else the clock reading `now`. */
    function SubmitId(now: int): (id: int)
      reads this
      ensures editing.Some? ==> id == editing.value.id
      ensures editing.None? ==> id == now
    {
      if editing.Some? then editing.value.id else now
    }

    /**
     * handleSubmit, with `now` standing for `Date.now()`. Without a title nothing happens.
     * When another event (not the edited one) has the built date text, the conflict message
     * is set and no callback runs. Otherwise the message is cleared and the record goes to the
     * update callback when editing and it is present, else to the add callback when present.
     * The browser submits only when a shown interval input holds at least 1 (its `min`), so
     * the record passed on never has a custom interval below 1.
     */
    method HandleSubmit(now: int) returns (call: Call)
      requires fields.recurrence == "custom" ==> fields.customInterval >= 1
      modifies this`conflict
      ensures fields.title == "" ==> call == NoCall && conflict == old(conflict)
      ensures fields.title != "" ==>
        var built := BuildEvent(fields, SubmitId(now));
        if HasConflict(events, if editing.Some? then Some(editing.value.id) else None, built.date) then
          call == NoCall && conflict == ConflictMessage
        else
          && conflict == ""
          && call == (if editing.Some? && hasUpdateCallback then UpdateCall(built)
                      else if hasAddCallback then AddCall(built)
                      else NoCall)
      ensures call.AddCall? ==> PositiveInterval(call.added) && call.added.id == SubmitId(now)
      ensures call.UpdateCall? ==> PositiveInterval(call.updated) && editing.Some? && call.updated.id == editing.value.id
      ensures call.AddCall? && call.added.custom.Some? ==> call.added.custom.value.interval >= 1
      ensures call.UpdateCall? && call.updated.custom.Some? ==> call.updated.custom.value.interval >= 1
    {
      if fields.title == "" {
        return NoCall;
      }
      var built := BuildEvent(fields, SubmitId(now));
      if HasConflict(events, if editing.Some? then Some(editing.value.id) else None, built.date) {
        conflict := ConflictMessage;
        return NoCall;
      }
      conflict := "";
      if editing.Some? && hasUpdateCallback {
        call := UpdateCall(built);
      } else if hasAddCallback {
        call := AddCall(built);
      } else {
        call := NoCall;
      }
    }
  }
}
