/**
  * The calendar's events per day (`src/lib/calendar-storage.ts`), kept in the browser's
  * local storage under the key "blog-calendar-events-v2" as a JSON object from day
  * strings to lists of event texts. The stored entry is modelled by what parsing it
  * gives; every write replaces it with the object the operation computed.
  */
module CalendarStorage {
  import opened Sequences

  /** Day strings to the events of that day. */
  type Events = map<string, seq<string>>

  /** The local-storage entry: absent or empty, not valid JSON, or a parsed object. */
  datatype Stored = Missing | Unreadable | Saved(events: Events)

  // ---------------------------------------------------------------------------
  // The operations on the parsed object

  /** `allEvents[date] || []`. */
  function EventsOn(all: Events, date: string): seq<string> {
    if date in all then all[date] else []
  }

  /** The object `saveEventsByDate` writes: an empty list deletes the day, any other list
      replaces the day's events. */
  function StoreEvents(all: Events, date: string, events: seq<string>): Events {
    if events == [] then all - {date} else all[date := events]
  }

  /** The object `addEvent` leaves: the event appended to its day unless it is there. */
  function WithEvent(all: Events, date: string, event: string): Events {
    var existing := EventsOn(all, date);
    if event in existing then all else StoreEvents(all, date, existing + [event])
  }

  /** `events.filter((_, index) => index !== eventIndex)`. */
  function DropIndex(events: seq<string>, index: int): seq<string>
    decreases |events|
  {
    if events == [] then []
    else (if index == 0 then [] else [events[0]]) + DropIndex(events[1..], index - 1)
  }

  /** The object `removeEvent` writes. */
  function WithoutEvent(all: Events, date: string, index: int): Events {
    StoreEvents(all, date, DropIndex(EventsOn(all, date), index))
  }

  /** No day is stored with an empty list. */
  predicate NoEmptyLists(all: Events) {
    forall date :: date in all ==> all[date] != []
  }

  /** Saving sets the one day and leaves every other day as it was; the day is deleted
      exactly when the list is empty, so the events read back are the ones saved. */
  lemma StoreEventsEffect(all: Events, date: string, events: seq<string>, other: string)
    ensures var r := StoreEvents(all, date, events);
      && (date in r <==> events != [])
      && EventsOn(r, date) == events
      && (other != date ==> (other in r <==> other in all) && EventsOn(r, other) == EventsOn(all, other))
  {
  }

  /** Saving never puts an empty list under a day, and keeps a store without empty lists
      free of them. */
  lemma StoreEventsNeverEmpty(all: Events, date: string, events: seq<string>)
    ensures var r := StoreEvents(all, date, events);
      && (date in r ==> r[date] != [])
      && (NoEmptyLists(all) ==> NoEmptyLists(r))
  {
  }

  /** Adding puts the event last on its day when it is absent and changes nothing when it
      is present; other days are untouched. */
  lemma WithEventEffect(all: Events, date: string, event: string, other: string)
    ensures var existing := EventsOn(all, date);
      var r := WithEvent(all, date, event);
      && EventsOn(r, date) == (if event in existing then existing else existing + [event])
      && event in EventsOn(r, date)
      && (event in existing ==> r == all)
      && (other != date ==> (other in r <==> other in all) && EventsOn(r, other) == EventsOn(all, other))
  {
  }

  /** Adding keeps a day's events free of duplicates. */
  lemma WithEventKeepsDistinct(all: Events, date: string, event: string)
    requires NoDuplicates(EventsOn(all, date))
    ensures NoDuplicates(EventsOn(WithEvent(all, date, event), date))
  {
    var existing := EventsOn(all, date);
    if event !in existing {
      NoDuplicatesConcat(existing, [event]);
    }
  }

  /** Adding the same event twice is adding it once. */
  lemma WithEventIdempotent(all: Events, date: string, event: string)
    ensures WithEvent(WithEvent(all, date, event), date, event) == WithEvent(all, date, event)
  {
    WithEventEffect(all, date, event, date);
  }

  /** The filter drops exactly the element at `index` and keeps the others in order; an
      index outside the list drops nothing. */
  lemma DropIndexEffect(events: seq<string>, index: int)
    ensures 0 <= index < |events| ==> DropIndex(events, index) == events[..index] + events[index + 1..]
    ensures !(0 <= index < |events|) ==> DropIndex(events, index) == events
  {
    if 0 <= index < |events| {
      DropInRange(events, index);
    } else {
      DropOutOfRange(events, index);
    }
  }

  lemma {:induction false} DropInRange(events: seq<string>, index: int)
    requires 0 <= index < |events|
    ensures DropIndex(events, index) == events[..index] + events[index + 1..]
    decreases |events|
  {
    var rest := events[1..];
    if index == 0 {
      DropOutOfRange(rest, -1);
      assert events[..0] + events[1..] == rest;
    } else {
      DropInRange(rest, index - 1);
      assert DropIndex(events, index) == [events[0]] + (rest[..index - 1] + rest[index..]);
      assert [events[0]] + rest[..index - 1] == events[..index];
      assert rest[index..] == events[index + 1..];
    }
  }

  lemma {:induction false} DropOutOfRange(events: seq<string>, index: int)
    requires !(0 <= index < |events|)
    ensures DropIndex(events, index) == events
    decreases |events|
  {
    if events != [] {
      DropOutOfRange(events[1..], index - 1);
      assert [events[0]] + events[1..] == events;
    }
  }

  /** Removing a day's only event deletes the day. */
  lemma RemovingLastEventDeletesDay(all: Events, date: string, event: string)
    requires EventsOn(all, date) == [event]
    ensures date !in WithoutEvent(all, date, 0)
  {
    DropIndexEffect([event], 0);
  }

  /** Removing keeps a day's events free of duplicates. */
  lemma WithoutEventKeepsDistinct(all: Events, date: string, index: int)
    requires NoDuplicates(EventsOn(all, date))
    ensures NoDuplicates(EventsOn(WithoutEvent(all, date, index), date))
  {
    var existing := EventsOn(all, date);
    DropIndexEffect(existing, index);
    var r := DropIndex(existing, index);
    if 0 <= index < |existing| {
      forall i, j | 0 <= i < j < |r|
        ensures r[i] != r[j]
      {
        var i' := if i < index then i else i + 1;
        var j' := if j < index then j else j + 1;
        assert r[i] == existing[i'] && r[j] == existing[j'];
      }
    }
  }

  /** Removing the event just added at the end gives back a store without empty lists. */
  lemma AddThenRemove(all: Events, date: string, event: string)
    requires NoEmptyLists(all)
    requires event !in EventsOn(all, date)
    ensures WithoutEvent(WithEvent(all, date, event), date, |EventsOn(all, date)|) == all
  {
    var existing := EventsOn(all, date);
    DropIndexEffect(existing + [event], |existing|);
    assert (existing + [event])[..|existing|] == existing;
    assert (existing + [event])[|existing| + 1..] == [];
    assert existing + [] == existing;
  }

  /** Clearing deletes the day, and clearing again changes nothing. */
  lemma ClearIdempotent(all: Events, date: string)
    ensures date !in StoreEvents(all, date, [])
    ensures StoreEvents(StoreEvents(all, date, []), date, []) == StoreEvents(all, date, [])
  {
  }

  // ---------------------------------------------------------------------------
  // The store

  /** The browser's local storage as the module sees it. Outside a browser (during
      server-side rendering) there is no `window`: reads give nothing and writes do
      nothing. */
  class CalendarStore {
    const inBrowser: bool
    var item: Stored

    constructor (inBrowser: bool, item: Stored)
      ensures this.inBrowser == inBrowser && this.item == item
    {
      this.inBrowser := inBrowser;
      this.item := item;
    }

    /** `getAllCalendarEvents()`: the parsed object, or nothing when there is no window,
        no entry, or an entry that does not parse. */
    function GetAllCalendarEvents(): Events
      reads this
    {
      if !inBrowser then map[]
      else match item
        case Saved(events) => events
        case _ => map[]
    }

    /** `getEventsByDate(date)`: the day's events, [] for a day without an entry. */
    function GetEventsByDate(date: string): seq<string>
      reads this
    {
      EventsOn(GetAllCalendarEvents(), date)
    }

    /** `saveEventsByDate(date, events)`. */
    method SaveEventsByDate(date: string, events: seq<string>)
      modifies this
      ensures item == if inBrowser then Saved(StoreEvents(old(GetAllCalendarEvents()), date, events)) else old(item)
    {
      if !inBrowser {
        return;
      }
      var allEvents := GetAllCalendarEvents();
      if |events| == 0 {
        allEvents := allEvents - {date};
      } else {
        allEvents := allEvents[date := events];
      }
      item := Saved(allEvents);
    }

    /** `addEvent(date, event)`: nothing is written when the event is already there. */
    method AddEvent(date: string, event: string)
      modifies this
      ensures item == if inBrowser then Saved(WithEvent(old(GetAllCalendarEvents()), date, event)) else old(item)
    {
      var existingEvents := GetEventsByDate(date);
      if event !in existingEvents {
        SaveEventsByDate(date, existingEvents + [event]);
      }
    }

    /** `removeEvent(date, eventIndex)`. */
    method RemoveEvent(date: string, eventIndex: int)
      modifies this
      ensures item == if inBrowser then Saved(WithoutEvent(old(GetAllCalendarEvents()), date, eventIndex)) else old(item)
    {
      var existingEvents := GetEventsByDate(date);
      var newEvents := DropIndex(existingEvents, eventIndex);
      SaveEventsByDate(date, newEvents);
    }

    /** `clearEventsByDate(date)`. */
    method ClearEventsByDate(date: string)
      modifies this
      ensures item == if inBrowser then Saved(StoreEvents(old(GetAllCalendarEvents()), date, [])) else old(item)
    {
      SaveEventsByDate(date, []);
    }
  }
}
