/**
 * The list transforms of the application component: each handler computes a whole new list of
 * events and hands it to the store (add, update, delete, drag-reschedule), and the search box
 * narrows the list before it is expanded for display.
 */
module EventList {
  import opened Wrappers
  import opened Events
  import opened Dates
  import opened Seqs

  /** handleAddEvent: the new event goes at the end. */
  function Add<D>(events: seq<Event<D>>, event: Event<D>): (r: seq<Event<D>>)
    ensures |r| == |events| + 1 && r[..|events|] == events && r[|events|] == event
  {
    events + [event]
  }

  /** handleUpdateEvent: every entry carrying the updated event's id is replaced by it. */
  function Update<D>(events: seq<Event<D>>, updated: Event<D>): (r: seq<Event<D>>)
    ensures |r| == |events| && Ids(r) == Ids(events)
    ensures forall i :: 0 <= i < |events| && events[i].id == updated.id ==> r[i] == updated
    ensures forall i :: 0 <= i < |events| && events[i].id != updated.id ==> r[i] == events[i]
  {
    if events == [] then []
    else [if events[0].id == updated.id then updated else events[0]] + Update(events[1..], updated)
  }

  /** handleDeleteEvent: keeps, in order, the entries whose id differs from the deleted one. */
  function Delete<D>(events: seq<Event<D>>, id: int): (r: seq<Event<D>>)
    ensures |r| <= |events|
    ensures forall i :: 0 <= i < |r| ==> r[i].id != id
  {
    if events == [] then []
    else (if events[0].id == id then [] else [events[0]]) + Delete(events[1..], id)
  }

  /** ASCII case folding, as `toLowerCase` does on ASCII letters. */
  function LowerChar(c: char): (r: char)
    ensures 'A' <= c <= 'Z' ==> r as int == c as int + 32
    ensures !('A' <= c <= 'Z') ==> r == c
  {
    if 'A' <= c <= 'Z' then (c as int + 32) as char else c
  }

  function Lower(s: string): (r: string)
    ensures |r| == |s| && forall i :: 0 <= i < |s| ==> r[i] == LowerChar(s[i])
  {
    if s == [] then [] else [LowerChar(s[0])] + Lower(s[1..])
  }

  /** `sub` occurs in `s` starting at position `i`. */
  predicate OccursAt(s: string, sub: string, i: int) {
    0 <= i <= |s| - |sub| && s[i..i + |sub|] == sub
  }

  /** String `includes`: `sub` occurs in `s` at some position. */
  function Includes(s: string, sub: string): (r: bool)
    ensures r <==> exists i :: OccursAt(s, sub, i)
    decreases |s|
  {
    if |sub| > |s| then false
    else if s[..|sub|] == sub then
      assert OccursAt(s, sub, 0);
      true
    else
      var r := Includes(s[1..], sub);
      assert forall j :: OccursAt(s[1..], sub, j) <==> OccursAt(s, sub, j + 1) by {
        forall j ensures OccursAt(s[1..], sub, j) <==> OccursAt(s, sub, j + 1) {
          if 0 <= j <= |s| - 1 - |sub| {
            assert s[1..][j..j + |sub|] == s[j + 1..j + 1 + |sub|];
          }
        }
      }
      assert !OccursAt(s, sub, 0);
      assert (exists i :: OccursAt(s, sub, i)) ==> r by {
        if i :| OccursAt(s, sub, i) {
          assert OccursAt(s[1..], sub, i - 1);
        }
      }
      r
  }

  /** The search predicate: the query occurs in the title, or in a present description, ignoring case. */
  predicate Matches<D>(e: Event<D>, query: string) {
    Includes(Lower(e.title), Lower(query))
    || (e.description != "" && Includes(Lower(e.description), Lower(query)))
  }

  /** filteredEvents: the events matching the search query, in their original order. */
  function Filter<D>(events: seq<Event<D>>, query: string): (r: seq<Event<D>>)
    ensures |r| <= |events|
    ensures forall i :: 0 <= i < |r| ==> Matches(r[i], query)
  {
    if events == [] then []
    else (if Matches(events[0], query) then [events[0]] else []) + Filter(events[1..], query)
  }

  /** The new date of a dropped event: the calendar day dropped on, at the event's old time of day. */
  function Splice(oldDate: Date, newDay: Date): (r: Date)
    ensures IsSameDay(r, newDay) && r.minute == oldDate.minute
  {
    DateTime(newDay.month, newDay.day, oldDate.minute)
  }

  /** Sets the date of every entry carrying `id`. */
  function SetDate(events: seq<Event<Date>>, id: int, date: Date): (r: seq<Event<Date>>)
    ensures |r| == |events|
    ensures forall i :: 0 <= i < |events| ==> r[i].(date := events[i].date) == events[i]
    ensures forall i :: 0 <= i < |events| ==> r[i].date == if events[i].id == id then date else events[i].date
  {
    if events == [] then []
    else [if events[0].id == id then events[0].(date := date) else events[0]] + SetDate(events[1..], id, date)
  }

  /**
   * handleEventDrop: a recurring event cannot be moved; otherwise the entries carrying the
   * dropped event's id move to the day dropped on, keeping the dropped event's time of day.
   */
  function HandleEventDrop(events: seq<Event<Date>>, event: Event<Date>, newDate: Date): (r: seq<Event<Date>>)
    ensures IsRecurring(event) ==> r == events
    ensures |r| == |events| && Ids(r) == Ids(events)
    ensures forall i :: 0 <= i < |events| ==> r[i].(date := events[i].date) == events[i]
    ensures forall i :: 0 <= i < |events| && events[i].id != event.id ==> r[i] == events[i]
    ensures !IsRecurring(event) ==> forall i :: 0 <= i < |events| && events[i].id == event.id ==>
              IsSameDay(r[i].date, newDate) && r[i].date.minute == event.date.minute
  {
    if IsRecurring(event) then events
    else SetDate(events, event.id, Splice(event.date, newDate))
  }

  /** Deleting keeps exactly the entries whose id differs from the deleted one. */
  lemma {:induction false} DeleteMembers<D>(events: seq<Event<D>>, id: int, x: Event<D>)
    ensures x in Delete(events, id) <==> x in events && x.id != id
  {
    if events != [] {
      DeleteMembers(events[1..], id, x);
      assert events == [events[0]] + events[1..];
    }
  }

  /** Deleting works entry by entry, so the survivors keep their relative order. */
  lemma {:induction false} DeleteAppend<D>(a: seq<Event<D>>, b: seq<Event<D>>, id: int)
    ensures Delete(a + b, id) == Delete(a, id) + Delete(b, id)
  {
    if a == [] {
      assert a + b == b;
    } else {
      assert (a + b)[1..] == a[1..] + b;
      DeleteAppend(a[1..], b, id);
    }
  }

  /** Deleting an id that no entry carries leaves the list as it was. */
  lemma {:induction false} DeleteAbsent<D>(events: seq<Event<D>>, id: int)
    requires forall i :: 0 <= i < |events| ==> events[i].id != id
    ensures Delete(events, id) == events
  {
    if events != [] {
      DeleteAbsent(events[1..], id);
    }
  }

  /** Adding an event with a fresh id and then deleting it restores the list. */
  lemma AddThenDelete<D>(events: seq<Event<D>>, event: Event<D>)
    requires forall i :: 0 <= i < |events| ==> events[i].id != event.id
    ensures Delete(Add(events, event), event.id) == events
  {
    DeleteAppend(events, [event], event.id);
    DeleteAbsent(events, event.id);
  }

  /** Adding an event with a fresh id keeps the ids unique. */
  lemma AddKeepsUniqueIds<D>(events: seq<Event<D>>, event: Event<D>)
    requires UniqueIds(events)
    requires forall i :: 0 <= i < |events| ==> events[i].id != event.id
    ensures UniqueIds(Add(events, event))
  {
  }

  /** Updating changes no id, so the ids stay unique. */
  lemma UpdateKeepsUniqueIds<D>(events: seq<Event<D>>, updated: Event<D>)
    requires UniqueIds(events)
    ensures UniqueIds(Update(events, updated))
  {
    var r := Update(events, updated);
    forall i, j | 0 <= i < j < |r| ensures r[i].id != r[j].id {
      assert Ids(r)[i] == Ids(events)[i] && Ids(r)[j] == Ids(events)[j];
    }
  }

  /** Applying the same update twice is the same as applying it once. */
  lemma UpdateIdempotent<D>(events: seq<Event<D>>, updated: Event<D>)
    ensures Update(Update(events, updated), updated) == Update(events, updated)
  {
  }

  /** Deleting keeps the ids unique. */
  lemma {:induction false} DeleteKeepsUniqueIds<D>(events: seq<Event<D>>, id: int)
    requires UniqueIds(events)
    ensures UniqueIds(Delete(events, id))
  {
    if events != [] {
      DeleteKeepsUniqueIds(events[1..], id);
      var rest := Delete(events[1..], id);
      forall k | 0 <= k < |rest| ensures rest[k].id != events[0].id {
        DeleteMembers(events[1..], id, rest[k]);
        var j :| 0 <= j < |events[1..]| && events[1..][j] == rest[k];
        assert events[j + 1] == rest[k];
      }
    }
  }

  /** The search keeps exactly the matching entries. */
  lemma {:induction false} FilterMembers<D>(events: seq<Event<D>>, query: string, x: Event<D>)
    ensures x in Filter(events, query) <==> x in events && Matches(x, query)
  {
    if events != [] {
      FilterMembers(events[1..], query, x);
      assert events == [events[0]] + events[1..];
    }
  }

  /** The search works entry by entry, so the kept entries stay in their original order. */
  lemma {:induction false} FilterAppend<D>(a: seq<Event<D>>, b: seq<Event<D>>, query: string)
    ensures Filter(a + b, query) == Filter(a, query) + Filter(b, query)
  {
    if a == [] {
      assert a + b == b;
    } else {
      var head := if Matches(a[0], query) then [a[0]] else [];
      assert (a + b)[0] == a[0] && (a + b)[1..] == a[1..] + b;
      assert Filter(a + b, query) == head + Filter(a[1..] + b, query);
      FilterAppend(a[1..], b, query);
      AppendAssoc(head, Filter(a[1..], query), Filter(b, query));
    }
  }

  /** An empty search box shows every event, in order. */
  lemma {:induction false} FilterEmptyQuery<D>(events: seq<Event<D>>)
    ensures Filter(events, "") == events
  {
    if events != [] {
      assert OccursAt(Lower(events[0].title), Lower(""), 0);
      FilterEmptyQuery(events[1..]);
    }
  }

  /** Search ignores case: a query matches the same events as its lower-case form. */
  lemma FilterIgnoresCase<D>(events: seq<Event<D>>, query: string)
    ensures Filter(events, query) == Filter(events, Lower(query))
  {
    LowerIdempotent(query);
    assert forall e: Event<D> :: Matches(e, query) == Matches(e, Lower(query));
    FilterSamePredicate(events, query, Lower(query));
  }

  lemma LowerIdempotent(s: string)
    ensures Lower(Lower(s)) == Lower(s)
  {
  }

  lemma {:induction false} FilterSamePredicate<D>(events: seq<Event<D>>, q1: string, q2: string)
    requires forall e: Event<D> :: Matches(e, q1) == Matches(e, q2)
    ensures Filter(events, q1) == Filter(events, q2)
  {
    if events != [] {
      FilterSamePredicate(events[1..], q1, q2);
    }
  }

  /** A drop changes no id, so the ids stay unique. */
  lemma DropKeepsUniqueIds(events: seq<Event<Date>>, event: Event<Date>, newDate: Date)
    requires UniqueIds(events)
    ensures UniqueIds(HandleEventDrop(events, event, newDate))
  {
    var r := HandleEventDrop(events, event, newDate);
    forall i, j | 0 <= i < j < |r| ensures r[i].id != r[j].id {
      assert Ids(r)[i] == Ids(events)[i] && Ids(r)[j] == Ids(events)[j];
    }
  }
}
