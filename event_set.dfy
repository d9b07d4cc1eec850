/**
 * `EventSet` (src/lib/composables/EventSet.svelte.ts): a set whose `add` and
 * `delete` always emit, whether or not membership changed. Emissions are the
 * log `events`.
 */
module EventSets {

  datatype SetEvent<T> = Added(item: T) | Deleted(item: T)

  class EventSet<T(==)> {
    /** `items` */
    var items: set<T>
    /** What `#addEvent` and `#deleteEvent` emitted, oldest first. */
    var events: seq<SetEvent<T>>

    constructor ()
      ensures items == {} && events == []
    {
      items := {};
      events := [];
    }

    /** `has(item)` */
    predicate Has(item: T)
      reads this
      ensures Has(item) <==> item in items
    {
      item in items
    }

    /** `add(item)`: membership of other items is untouched; one add event even for a member. */
    method Add(item: T)
      modifies this`items, this`events
      ensures items == old(items) + {item}
      ensures item in old(items) ==> items == old(items)
      ensures Has(item)
      ensures events == old(events) + [Added(item)]
    {
      items := items + {item};
      events := events + [Added(item)];
    }

    /** `delete(item)`: membership of other items is untouched; one delete event even for a non-member. */
    method Delete(item: T)
      modifies this`items, this`events
      ensures items == old(items) - {item}
      ensures !Has(item)
      ensures events == old(events) + [Deleted(item)]
    {
      items := items - {item};
      events := events + [Deleted(item)];
    }
  }

  /**
   * Unlike `EventMap.delete`, deleting an absent item still emits: starting from
   * an empty set, deleting x and adding x twice gives three events and leaves {x}.
   */
  method UnconditionalEvents<T(==)>(x: T) returns (items: set<T>, events: seq<SetEvent<T>>)
    ensures items == {x}
    ensures events == [Deleted(x), Added(x), Added(x)]
  {
    var s := new EventSet<T>();
    s.Delete(x);
    s.Add(x);
    s.Add(x);
    items, events := s.items, s.events;
  }
}
