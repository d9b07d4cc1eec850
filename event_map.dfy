/**
 * `EventMap` (src/lib/composables/EventMap.svelte.ts): a key/value map whose
 * `set` is "delete, then insert", and which emits an add event for every `set`
 * and a delete event for every removal of a present key, including the removal
 * that an overwriting `set` performs first. Emissions are the log `events`; the
 * fan-out of each one to the subscribed handlers is `Events.EventSource.Emit`.
 */
module EventMaps {
  import opened Options

  datatype MapEvent<K, V> = Added(key: K, value: V) | Deleted(key: K, value: V)

  class EventMap<K(==), V> {
    /** `items` */
    var items: map<K, V>
    /** What `#addEvent` and `#deleteEvent` emitted, oldest first. */
    var events: seq<MapEvent<K, V>>

    constructor ()
      ensures items == map[] && events == []
    {
      items := map[];
      events := [];
    }

    /** `get(key)`; `None` is `undefined`. */
    function Get(key: K): (r: Option<V>)
      reads this
      ensures r.Some? <==> key in items
      ensures r.Some? ==> r.value == items[key]
    {
      if key in items then Some(items[key]) else None
    }

    /** `has(key)` */
    predicate Has(key: K)
      reads this
      ensures Has(key) <==> Get(key).Some?
    {
      key in items
    }

    /** `delete(key)`: nothing at all for an absent key; otherwise removal, then one delete event with the old value. */
    method Delete(key: K)
      modifies this`items, this`events
      ensures key !in old(items) ==> items == old(items) && events == old(events)
      ensures key in old(items) ==>
        && items == old(items) - {key}
        && events == old(events) + [Deleted(key, old(items)[key])]
      ensures !Has(key)
    {
      if !Has(key) {
        return;
      }
      var item := items[key];
      items := items - {key};
      events := events + [Deleted(key, item)];
    }

    /**
     * `set(key, value)`: the delete of an overwritten value is emitted first, then
     * exactly one add event; every other key keeps its entry.
     */
    method Set(key: K, value: V)
      modifies this`items, this`events
      ensures items == old(items)[key := value]
      ensures Has(key) && Get(key) == Some(value)
      ensures events == old(events)
        + (if key in old(items) then [Deleted(key, old(items)[key])] else [])
        + [Added(key, value)]
    {
      Delete(key);
      items := items[key := value];
      events := events + [Added(key, value)];
    }
  }

  /** The payloads a handler subscribed with `onAdd` receives, in order. */
  function AddPayloads<K, V>(events: seq<MapEvent<K, V>>): seq<(K, V)> {
    if events == [] then []
    else
      var last := events[|events| - 1];
      AddPayloads(events[..|events| - 1]) + if last.Added? then [(last.key, last.value)] else []
  }

  /** The payloads a handler subscribed with `onDelete` receives, in order. */
  function DeletePayloads<K, V>(events: seq<MapEvent<K, V>>): seq<(K, V)> {
    if events == [] then []
    else
      var last := events[|events| - 1];
      DeletePayloads(events[..|events| - 1]) + if last.Deleted? then [(last.key, last.value)] else []
  }

  /** One more event adds at most one payload, at the end, to the stream of its kind. */
  lemma PayloadsSnoc<K, V>(events: seq<MapEvent<K, V>>, e: MapEvent<K, V>)
    ensures AddPayloads(events + [e]) == AddPayloads(events) + if e.Added? then [(e.key, e.value)] else []
    ensures DeletePayloads(events + [e]) == DeletePayloads(events) + if e.Deleted? then [(e.key, e.value)] else []
  {
    assert (events + [e])[..|events|] == events;
  }

  /**
   * Every payload a handler receives comes from an event of its kind, so a
   * handler never receives more payloads than there were events.
   */
  lemma {:induction false} PayloadsFromEvents<K, V>(events: seq<MapEvent<K, V>>)
    ensures |AddPayloads(events)| <= |events| && |DeletePayloads(events)| <= |events|
    ensures forall p :: p in AddPayloads(events) ==> Added(p.0, p.1) in events
    ensures forall p :: p in DeletePayloads(events) ==> Deleted(p.0, p.1) in events
  {
    if events != [] {
      var init := events[..|events| - 1];
      PayloadsFromEvents(init);
      assert events == init + [events[|events| - 1]];
      PayloadsSnoc(init, events[|events| - 1]);
    }
  }

  /** The event stream the test's `populate` sequence produces on a fresh map. */
  method Populate(m: EventMap<int, Option<string>>)
    requires m.items == map[] && m.events == []
    modifies m`items, m`events
    ensures m.items == map[0 := Some("wyvern"), 1 := Some("amphithere"), 2 := Some("knucker"), 5 := None]
    ensures m.events == [Added(0, Some("wyvern")), Added(1, Some("amphitheater")), Deleted(1, Some("amphitheater")),
                         Added(1, Some("amphithere")), Added(2, Some("zmei")), Deleted(2, Some("zmei")),
                         Added(2, Some("dragon")), Deleted(2, Some("dragon")), Added(2, Some("knucker")), Added(5, None)]
  {
    m.Set(0, Some("wyvern"));
    m.Set(1, Some("amphitheater"));
    assert m.events == [Added(0, Some("wyvern")), Added(1, Some("amphitheater"))];
    m.Delete(1);
    assert m.items == map[0 := Some("wyvern")];
    m.Set(1, Some("amphithere"));
    ghost var e1 := m.events;
    assert e1 == [Added(0, Some("wyvern")), Added(1, Some("amphitheater")), Deleted(1, Some("amphitheater")),
                  Added(1, Some("amphithere"))];
    assert m.items == map[0 := Some("wyvern"), 1 := Some("amphithere")];
    m.Set(2, Some("zmei"));
    m.Set(2, Some("dragon"));
    assert m.events == e1 + [Added(2, Some("zmei")), Deleted(2, Some("zmei")), Added(2, Some("dragon"))];
    m.Set(2, Some("knucker"));
    assert m.items == map[0 := Some("wyvern"), 1 := Some("amphithere"), 2 := Some("knucker")];
    m.Set(5, None);
  }

  /** The payload streams of the `populate` event sequence, one event at a time. */
  lemma PopulatePayloads(e: seq<MapEvent<int, Option<string>>>)
    requires e == [Added(0, Some("wyvern")), Added(1, Some("amphitheater")), Deleted(1, Some("amphitheater")),
                   Added(1, Some("amphithere")), Added(2, Some("zmei")), Deleted(2, Some("zmei")),
                   Added(2, Some("dragon")), Deleted(2, Some("dragon")), Added(2, Some("knucker")), Added(5, None)]
    ensures AddPayloads(e) == [(0, Some("wyvern")), (1, Some("amphitheater")), (1, Some("amphithere")),
                               (2, Some("zmei")), (2, Some("dragon")), (2, Some("knucker")), (5, None)]
    ensures DeletePayloads(e) == [(1, Some("amphitheater")), (2, Some("zmei")), (2, Some("dragon"))]
  {
    assert e[..1] == e[..0] + [e[0]];
    PayloadsSnoc(e[..0], e[0]);
    assert e[..2] == e[..1] + [e[1]];
    PayloadsSnoc(e[..1], e[1]);
    assert e[..3] == e[..2] + [e[2]];
    PayloadsSnoc(e[..2], e[2]);
    assert e[..4] == e[..3] + [e[3]];
    PayloadsSnoc(e[..3], e[3]);
    assert e[..5] == e[..4] + [e[4]];
    PayloadsSnoc(e[..4], e[4]);
    assert e[..6] == e[..5] + [e[5]];
    PayloadsSnoc(e[..5], e[5]);
    assert e[..7] == e[..6] + [e[6]];
    PayloadsSnoc(e[..6], e[6]);
    assert e[..8] == e[..7] + [e[7]];
    PayloadsSnoc(e[..7], e[7]);
    assert e[..9] == e[..8] + [e[8]];
    PayloadsSnoc(e[..8], e[8]);
    assert e[..10] == e[..9] + [e[9]];
    PayloadsSnoc(e[..9], e[9]);
    assert e[..10] == e;
  }

  /**
   * The `populate` sequence of the unit test: seven add events, three delete
   * events (the explicit delete of 1 and the two overwrites of 2), and the final
   * contents that `has` and `get` report. A stored `undefined` is `Some(None)`.
   */
  method PopulateTrace() returns (items: map<int, Option<string>>, added: seq<(int, Option<string>)>, deleted: seq<(int, Option<string>)>)
    ensures added == [(0, Some("wyvern")), (1, Some("amphitheater")), (1, Some("amphithere")),
                      (2, Some("zmei")), (2, Some("dragon")), (2, Some("knucker")), (5, None)]
    ensures deleted == [(1, Some("amphitheater")), (2, Some("zmei")), (2, Some("dragon"))]
    ensures items == map[0 := Some("wyvern"), 1 := Some("amphithere"), 2 := Some("knucker"), 5 := None]
    ensures 3 !in items && -1 !in items && 7 !in items
  {
    var m := new EventMap<int, Option<string>>();
    Populate(m);
    var e := m.events;
    PopulatePayloads(e);
    items := m.items;
    added := AddPayloads(e);
    deleted := DeletePayloads(e);
  }
}
