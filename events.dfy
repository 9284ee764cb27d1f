/** Events, their categories, and the browser store that persists them.

    An event's date is an already-parsed calendar day. Categories are the
    values the forms can produce: the four named ones and `Blank`, the empty
    string of the "Select category" option (and of "All Categories" in the
    filter of the events view). */
module Events {
  import opened Calendar
  import opened Seqs

  datatype Option<T> = None | Some(value: T)

  datatype Category = Blank | Work | Personal | Entertainment | Others

  datatype Event = Event(id: string, title: string, desc: string, date: Day, category: Category)

  /** The events dated on `day`, in list order (the per-cell and per-selected-day filters). */
  function EventsOn(events: seq<Event>, day: Day): seq<Event> {
    Filter((e: Event) => e.date == day, events)
  }

  /** The events of a day are all the list's events dated on it, each as often as in the list
      and in list order. */
  lemma EventsOnFacts(events: seq<Event>, day: Day)
    ensures forall e :: e in EventsOn(events, day) <==> e in events && e.date == day
    ensures forall e :: multiset(EventsOn(events, day))[e] == if e.date == day then multiset(events)[e] else 0
    ensures IsSubsequence(EventsOn(events, day), events)
  {
    forall e {
      FilterCount((x: Event) => x.date == day, events, e);
    }
    FilterMembership((e: Event) => e.date == day, events);
    FilterIsSubsequence((e: Event) => e.date == day, events);
  }

  /** The whole-list blob kept under the "events" key of the browser's local storage. Every
      write replaces the whole list. */
  class EventStore {
    var saved: seq<Event>

    constructor (saved: seq<Event>)
      ensures this.saved == saved
    {
      this.saved := saved;
    }

    method Save(events: seq<Event>)
      modifies this
      ensures saved == events
    {
      saved := events;
    }
  }
}
