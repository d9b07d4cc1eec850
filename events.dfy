/**
 * The change-notification channel: `EventSource` (src/lib/composables/EventSource.ts)
 * and its closure form `useEvent` (src/lib/composables/useEvent.svelte.ts), which
 * behave identically. Both keep the registered handlers in a JavaScript `Set`
 * and call every one of them, in insertion order, on each `emit`.
 *
 * A handler is identified by a value of type H; what it does when called is not
 * modelled. Each invocation is appended to the log `calls`, so "what the
 * handlers were given" is a sequence that can be stated and proved about.
 * Svelte's `onDestroy` teardown is the explicit method `Teardown`.
 */
module Events {
  import opened OrderedSets

  /** Handlers are closures; the model names each registered closure by a number. */
  type HandlerId = nat

  /** One invocation `handler(...args)`. */
  datatype Call<H, A> = Call(handler: H, args: A)

  /** The invocations that one `emit(...args)` performs over the handler set `handlers`. */
  function FanOut<H, A>(handlers: seq<H>, args: A): (calls: seq<Call<H, A>>)
    ensures |calls| == |handlers|
  {
    if handlers == [] then [] else [Call(handlers[0], args)] + FanOut(handlers[1..], args)
  }

  /** The i-th invocation goes to the i-th registered handler, with exactly the emitted arguments. */
  lemma {:induction false} FanOutInOrder<H, A>(handlers: seq<H>, args: A, i: nat)
    requires i < |handlers|
    ensures FanOut(handlers, args)[i] == Call(handlers[i], args)
  {
    if i > 0 {
      FanOutInOrder(handlers[1..], args, i - 1);
    }
  }

  /** Fanning out over one more handler adds exactly one invocation, at the end. */
  lemma {:induction false} FanOutSnoc<H, A>(handlers: seq<H>, h: H, args: A)
    ensures FanOut(handlers + [h], args) == FanOut(handlers, args) + [Call(h, args)]
  {
    if handlers == [] {
      assert handlers + [h] == [h];
    } else {
      assert (handlers + [h])[1..] == handlers[1..] + [h];
      FanOutSnoc(handlers[1..], h, args);
    }
  }

  /** The invocations of `fn` on the values under `keys`, in that order: a loop over a map's entries. */
  function CallEach<H, K, A>(fn: H, items: map<K, A>, keys: seq<K>): (r: seq<Call<H, A>>)
    requires forall i :: 0 <= i < |keys| ==> keys[i] in items
    ensures |r| == |keys| && forall i :: 0 <= i < |keys| ==> r[i] == Call(fn, items[keys[i]])
  {
    if keys == [] then [] else CallEach(fn, items, keys[..|keys| - 1]) + [Call(fn, items[keys[|keys| - 1]])]
  }

  lemma CallEachSnoc<H, K, A>(fn: H, items: map<K, A>, keys: seq<K>, k: K)
    requires forall i :: 0 <= i < |keys| ==> keys[i] in items
    requires k in items
    ensures CallEach(fn, items, keys + [k]) == CallEach(fn, items, keys) + [Call(fn, items[k])]
  {
    assert (keys + [k])[..|keys|] == keys;
  }

  /**
   * `for (const v of m.values()) fn(v)`: every entry visited once, in the map's
   * iteration order (the order is the result `visited`; it is not modelled further).
   */
  method CallOnEachValue<H, K, A>(fn: H, items: map<K, A>) returns (visited: seq<K>, calls: seq<Call<H, A>>)
    ensures NoDup(visited)
    ensures forall i :: 0 <= i < |visited| ==> visited[i] in items
    ensures forall k :: k in items ==> k in visited
    ensures calls == CallEach(fn, items, visited)
  {
    visited := [];
    calls := [];
    var pending := items.Keys;
    while pending != {}
      invariant pending <= items.Keys
      invariant NoDup(visited)
      invariant forall k :: k in visited ==> k in items && k !in pending
      invariant forall i :: 0 <= i < |visited| ==> visited[i] in items
      invariant forall k :: k in items ==> k in visited || k in pending
      invariant calls == CallEach(fn, items, visited)
      decreases pending
    {
      ghost var someKey := ElementOf(pending);
      var k :| k in pending;
      CallEachSnoc(fn, items, visited, k);
      calls := calls + [Call(fn, items[k])];
      visited := visited + [k];
      pending := pending - {k};
    }
  }

  /** How many of `calls` went to handler h. */
  function CallsTo<H(==), A>(calls: seq<Call<H, A>>, h: H): (r: nat)
    ensures r <= |calls|
    ensures r == 0 <==> forall i :: 0 <= i < |calls| ==> calls[i].handler != h
  {
    if calls == [] then 0
    else (if calls[0].handler == h then 1 else 0) + CallsTo(calls[1..], h)
  }

  /**
   * Every registered handler is called exactly once per emission; a handler that
   * is not (or no longer) registered is not called at all.
   */
  lemma {:induction false} FanOutOncePerHandler<H, A>(handlers: seq<H>, args: A, h: H)
    requires NoDup(handlers)
    ensures CallsTo(FanOut(handlers, args), h) == if h in handlers then 1 else 0
  {
    if handlers != [] {
      var fan := FanOut(handlers, args);
      assert fan[1..] == FanOut(handlers[1..], args);
      assert handlers[0] !in handlers[1..];
      FanOutOncePerHandler(handlers[1..], args, h);
    }
  }

  /**
   * With a handler list that may hold one handler several times (a fresh
   * closure per registration that the model names by the function it wraps),
   * each emission calls a handler once per registration.
   */
  lemma {:induction false} FanOutCountsRegistrations<H, A>(handlers: seq<H>, args: A, h: H)
    ensures CallsTo(FanOut(handlers, args), h) == multiset(handlers)[h]
  {
    if handlers != [] {
      var fan := FanOut(handlers, args);
      assert fan[1..] == FanOut(handlers[1..], args);
      assert handlers == [handlers[0]] + handlers[1..];
      assert multiset(handlers) == multiset{handlers[0]} + multiset(handlers[1..]);
      FanOutCountsRegistrations(handlers[1..], args, h);
    }
  }

  class EventSource<H(==), A> {
    /** `#handlers`, in registration order. */
    var handlers: seq<H>
    /** Every handler invocation made so far, oldest first. */
    var calls: seq<Call<H, A>>

    ghost predicate Valid()
      reads this
    {
      NoDup(handlers)
    }

    constructor ()
      ensures Valid() && handlers == [] && calls == []
    {
      handlers := [];
      calls := [];
    }

    /** `on(handler)`: adds the handler to the set, so a second registration keeps one copy. */
    method On(h: H)
      requires Valid()
      modifies this`handlers
      ensures Valid()
      ensures handlers == Add(old(handlers), h)
    {
      handlers := Add(handlers, h);
    }

    /** The `onDestroy` callback that `on` arranges: the handler leaves the set. */
    method Teardown(h: H)
      requires Valid()
      modifies this`handlers
      ensures Valid()
      ensures handlers == Remove(old(handlers), h)
    {
      handlers := Remove(handlers, h);
    }

    /** `emit(...args)`: one invocation per registered handler, in set order. */
    method Emit(args: A)
      requires Valid()
      modifies this`calls
      ensures calls == old(calls) + FanOut(handlers, args)
    {
      var i := 0;
      while i < |handlers|
        invariant 0 <= i <= |handlers|
        invariant calls == old(calls) + FanOut(handlers[..i], args)
      {
        FanOutSnoc(handlers[..i], handlers[i], args);
        assert handlers[..i + 1] == handlers[..i] + [handlers[i]];
        calls := calls + [Call(handlers[i], args)];
        i := i + 1;
      }
      assert handlers[..i] == handlers;
    }
  }

  /**
   * The registration behaviour end to end: registering h1, h2 and h1 again, then
   * emitting a, calls h1 then h2 once each; after h1's owner is torn down, emitting
   * b calls only h2.
   */
  method RegistrationScenario<H(==), A>(h1: H, h2: H, a: A, b: A) returns (calls: seq<Call<H, A>>)
    requires h1 != h2
    ensures calls == [Call(h1, a), Call(h2, a), Call(h2, b)]
  {
    var source := new EventSource<H, A>();
    source.On(h1);
    source.On(h2);
    source.On(h1);
    source.Emit(a);
    source.Teardown(h1);
    source.Emit(b);
    calls := source.calls;
  }
}
