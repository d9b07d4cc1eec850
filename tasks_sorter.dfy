/**
 * `useTasksSorter` (src/lib/composables/useTasksSorter.svelte.ts): keeps each
 * visible task that passes a filter in the bucket a mapping function chooses,
 * remembers each task's bucket in `oldBuckets`, and reports every re-evaluation
 * that is not a no-op as a bucket-change event `(task, oldBucket, newBucket)`.
 *
 * Buckets are caller-owned JavaScript `Set`s, named here by values of type B;
 * their contents, in insertion order, are the map `buckets` (a bucket without an
 * entry is empty). The per-task
 * effect is `Evaluate`, given the values the effect reads: the task's
 * visibility, the filter's verdict and the chosen bucket. Each step is first a
 * function on a `Sorting` value, which the class methods then apply.
 */
module TasksSorters {
  import opened Options
  import opened OrderedSets
  import opened Events

  /** The arguments of one bucket-change event; `None` is `null`. */
  datatype Change<T, B> = Change(task: T, oldBucket: Option<B>, newBucket: Option<B>)

  /** Bucket contents and the per-task record of each task's bucket. */
  datatype Sorting<T, B(!new)> = Sorting(buckets: map<B, seq<T>>, oldBuckets: map<T, B>)
  {
    function Members(b: B): (r: seq<T>)
      ensures b !in buckets ==> r == []
    {
      if b in buckets then buckets[b] else []
    }

    /** `oldBuckets.get(task) ?? null` */
    function Recorded(t: T): (r: Option<B>)
      ensures r.Some? <==> t in oldBuckets
      ensures r.Some? ==> r.value == oldBuckets[t]
    {
      if t in oldBuckets then Some(oldBuckets[t]) else None
    }

    /** Each bucket, being a `Set`, holds a task at most once. */
    ghost predicate Distinct() {
      forall b :: b in buckets ==> NoDup(buckets[b])
    }

    /** Buckets are sets, and a task in a bucket is recorded as being in that bucket. */
    ghost predicate Valid() {
      && Distinct()
      && forall b, t :: b in buckets && t in buckets[b] ==> t in oldBuckets && oldBuckets[t] == b
    }

    /** Valid, and every recorded task is in its recorded bucket. */
    ghost predicate Exact() {
      Valid() && forall t :: t in oldBuckets ==> t in Members(oldBuckets[t])
    }

    /** `bucket?.delete(task)`: the task leaves that bucket, whose other members keep their order. */
    function Take(bucket: Option<B>, t: T): (r: Sorting<T, B>)
      ensures r.oldBuckets == oldBuckets
      ensures forall b :: r.Members(b) == if Some(b) == bucket then Remove(Members(b), t) else Members(b)
      ensures Distinct() ==> r.Distinct()
    {
      if bucket.Some? then Sorting(buckets[bucket.value := Remove(Members(bucket.value), t)], oldBuckets) else this
    }

    /** `bucket?.add(task)`: a task not yet in that bucket joins it at the end. */
    function Put(bucket: Option<B>, t: T): (r: Sorting<T, B>)
      ensures r.oldBuckets == oldBuckets
      ensures forall b :: r.Members(b) == if Some(b) == bucket then Add(Members(b), t) else Members(b)
      ensures Distinct() ==> r.Distinct()
    {
      if bucket.Some? then Sorting(buckets[bucket.value := Add(Members(bucket.value), t)], oldBuckets) else this
    }
  }

  /** What one step does: the new sorting and the event it emits, if any. */
  datatype Step<T, B(!new)> = Step(sorting: Sorting<T, B>, change: Option<Change<T, B>>)

  /**
   * One run of the per-task effect. A task that is hidden or filtered out leaves
   * its recorded bucket, loses its record, and `(task, old, null)` is emitted even
   * when it had no bucket. Otherwise nothing happens when the chosen bucket is the
   * recorded one; else the task moves, one event is emitted, and the record
   * becomes the new bucket (or is cleared for `null`).
   */
  function Evaluated<T, B(!new)>(s: Sorting<T, B>, t: T, visible: bool, passes: bool, target: Option<B>): (r: Step<T, B>)
    ensures r.change.None? <==> visible && passes && target == s.Recorded(t)
    ensures r.change.Some? ==> r.change.value == Change(t, s.Recorded(t), if visible && passes then target else None)
    ensures r.sorting.Recorded(t) == if visible && passes then target else None
    ensures s.Distinct() ==> r.sorting.Distinct()
  {
    var oldBucket := s.Recorded(t);
    if !visible || !passes then
      var s1 := s.Take(oldBucket, t);
      Step(Sorting(s1.buckets, s1.oldBuckets - {t}), Some(Change(t, oldBucket, None)))
    else if oldBucket == target then
      Step(s, None)
    else
      var s1 := s.Take(oldBucket, t).Put(target, t);
      var record := if target.None? then s1.oldBuckets - {t} else s1.oldBuckets[t := target.value];
      Step(Sorting(s1.buckets, record), Some(Change(t, oldBucket, target)))
  }

  /** A step preserves both invariants. */
  lemma EvaluatedKeepsInvariants<T, B(!new)>(s: Sorting<T, B>, t: T, visible: bool, passes: bool, target: Option<B>)
    requires s.Valid()
    ensures Evaluated(s, t, visible, passes, target).sorting.Valid()
    ensures s.Exact() ==> Evaluated(s, t, visible, passes, target).sorting.Exact()
  {
    EvaluatedKeepsValid(s, t, visible, passes, target);
    if s.Exact() {
      EvaluatedKeepsExact(s, t, visible, passes, target);
    }
  }

  /** A step keeps every bucket member recorded under that bucket. */
  lemma EvaluatedKeepsValid<T, B(!new)>(s: Sorting<T, B>, t: T, visible: bool, passes: bool, target: Option<B>)
    requires s.Valid()
    ensures Evaluated(s, t, visible, passes, target).sorting.Valid()
  {
    var r := Evaluated(s, t, visible, passes, target).sorting;
    forall b, u | b in r.buckets && u in r.buckets[b]
      ensures u in r.oldBuckets && r.oldBuckets[u] == b
    {
      assert u in r.Members(b);
      if u == t {
        EvaluatedPlacesTask(s, t, visible, passes, target, b);
      } else {
        EvaluatedTouchesOnlyTask(s, t, visible, passes, target, u, b);
        assert b in s.buckets && u in s.buckets[b];
      }
    }
  }

  /** A step keeps every recorded task in its recorded bucket. */
  lemma EvaluatedKeepsExact<T, B(!new)>(s: Sorting<T, B>, t: T, visible: bool, passes: bool, target: Option<B>)
    requires s.Exact()
    ensures var r := Evaluated(s, t, visible, passes, target).sorting;
      forall u :: u in r.oldBuckets ==> u in r.Members(r.oldBuckets[u])
  {
    var r := Evaluated(s, t, visible, passes, target).sorting;
    forall u | u in r.oldBuckets
      ensures u in r.Members(r.oldBuckets[u])
    {
      var b := r.oldBuckets[u];
      if u == t {
        EvaluatedPlacesTask(s, t, visible, passes, target, b);
      } else {
        EvaluatedTouchesOnlyTask(s, t, visible, passes, target, u, b);
      }
    }
  }

  /**
   * After a step the task is in bucket b only when it is visible, passes the
   * filter and maps to b; from an exact sorting, exactly then.
   */
  lemma EvaluatedPlacesTask<T, B(!new)>(s: Sorting<T, B>, t: T, visible: bool, passes: bool, target: Option<B>, b: B)
    requires s.Valid()
    ensures t in Evaluated(s, t, visible, passes, target).sorting.Members(b) ==> visible && passes && target == Some(b)
    ensures s.Exact() ==> (t in Evaluated(s, t, visible, passes, target).sorting.Members(b) <==> visible && passes && target == Some(b))
  {
    if t in s.Members(b) {
      assert b in s.buckets && t in s.buckets[b];
    }
  }

  /** A step leaves every other task's membership and record as they were. */
  lemma EvaluatedTouchesOnlyTask<T, B(!new)>(s: Sorting<T, B>, t: T, visible: bool, passes: bool, target: Option<B>, u: T, b: B)
    requires u != t
    ensures var r := Evaluated(s, t, visible, passes, target).sorting;
      (u in r.Members(b) <==> u in s.Members(b)) && r.Recorded(u) == s.Recorded(u)
  {
  }

  /** The delete handler: the task leaves its recorded bucket, the record is kept, and `(task, old, null)` is emitted. */
  function Deleted<T, B(!new)>(s: Sorting<T, B>, t: T): (r: Step<T, B>)
    ensures r.sorting.oldBuckets == s.oldBuckets
    ensures r.change == Some(Change(t, s.Recorded(t), None))
    ensures s.Valid() ==> r.sorting.Valid() && forall b :: t !in r.sorting.Members(b)
  {
    TakeRecordedLeavesNoTrace(s, t);
    Step(s.Take(s.Recorded(t), t), Some(Change(t, s.Recorded(t), None)))
  }

  /** Under the invariant a task can only be in its recorded bucket, so taking it from there removes it from every bucket. */
  lemma TakeRecordedLeavesNoTrace<T, B(!new)>(s: Sorting<T, B>, t: T)
    ensures s.Valid() ==> s.Take(s.Recorded(t), t).Valid() && forall b :: t !in s.Take(s.Recorded(t), t).Members(b)
  {
    if s.Valid() {
      MemberIsRecorded(s, t);
      TakeKeepsValid(s, s.Recorded(t), t);
    }
  }

  /** Under the invariant, a bucket holding a task is the task's recorded bucket. */
  lemma MemberIsRecorded<T, B(!new)>(s: Sorting<T, B>, t: T)
    requires s.Valid()
    ensures forall b :: t in s.Members(b) ==> s.Recorded(t) == Some(b)
  {
    forall b | t in s.Members(b)
      ensures s.Recorded(t) == Some(b)
    {
      assert b in s.buckets && t in s.buckets[b];
    }
  }

  /** Taking a task out of a bucket keeps the invariant. */
  lemma TakeKeepsValid<T, B(!new)>(s: Sorting<T, B>, bucket: Option<B>, t: T)
    requires s.Valid()
    ensures s.Take(bucket, t).Valid()
  {
    var r := s.Take(bucket, t);
    forall b, u | b in r.buckets && u in r.buckets[b]
      ensures u in r.oldBuckets && r.oldBuckets[u] == b
    {
      assert u in r.Members(b);
      assert u in s.Members(b);
      assert b in s.buckets && u in s.buckets[b];
    }
  }

  /** After a task is deleted from an exact sorting, only its stale record breaks exactness. */
  lemma DeletedLeavesStaleRecord<T, B(!new)>(s: Sorting<T, B>, t: T)
    requires s.Exact() && t in s.oldBuckets
    ensures !Deleted(s, t).sorting.Exact()
  {
    var r := Deleted(s, t).sorting;
    assert t in r.oldBuckets && t !in r.Members(r.oldBuckets[t]);
  }

  /** With the invariant, a task sits in at most one bucket. */
  lemma AtMostOneBucket<T, B(!new)>(s: Sorting<T, B>, t: T, b1: B, b2: B)
    requires s.Valid()
    requires t in s.Members(b1) && t in s.Members(b2)
    ensures b1 == b2
  {
    assert b1 in s.buckets && t in s.buckets[b1];
    assert s.oldBuckets[t] == b1;
    assert b2 in s.buckets && t in s.buckets[b2];
    assert s.oldBuckets[t] == b2;
  }

  class TasksSorter<T(==), B(==,!new)> {
    var sorting: Sorting<T, B>
    /** The `onBucketChange` handler set. */
    var changeHandlers: seq<HandlerId>
    var calls: seq<Call<HandlerId, Change<T, B>>>

    constructor ()
      ensures sorting.Exact()
      ensures sorting == Sorting(map[], map[]) && changeHandlers == [] && calls == []
    {
      sorting := Sorting(map[], map[]);
      changeHandlers := [];
      calls := [];
    }

    /** `onBucketChange(handler)` */
    method OnBucketChange(h: HandlerId)
      modifies this`changeHandlers
      ensures changeHandlers == Add(old(changeHandlers), h)
    {
      changeHandlers := Add(changeHandlers, h);
    }

    /** The component teardown of an `onBucketChange` registration. */
    method TeardownBucketChange(h: HandlerId)
      modifies this`changeHandlers
      ensures changeHandlers == Remove(old(changeHandlers), h)
    {
      changeHandlers := Remove(changeHandlers, h);
    }

    /** The per-task effect, run once. */
    method Evaluate(t: T, visible: bool, passes: bool, target: Option<B>)
      requires sorting.Valid()
      modifies this`sorting, this`calls
      ensures sorting.Valid() && (old(sorting.Exact()) ==> sorting.Exact())
      ensures sorting == Evaluated(old(sorting), t, visible, passes, target).sorting
      ensures var change := Evaluated(old(sorting), t, visible, passes, target).change;
        calls == old(calls) + if change.Some? then FanOut(changeHandlers, change.value) else []
    {
      EvaluatedKeepsInvariants(sorting, t, visible, passes, target);
      var oldBucket := sorting.Recorded(t);
      if !visible || !passes {
        sorting := sorting.Take(oldBucket, t);
        sorting := sorting.(oldBuckets := sorting.oldBuckets - {t});
        calls := calls + FanOut(changeHandlers, Change(t, oldBucket, None));
        return;
      }
      var newBucket := target;
      if oldBucket == newBucket {
        return;
      }
      sorting := sorting.Take(oldBucket, t);
      sorting := sorting.Put(newBucket, t);
      calls := calls + FanOut(changeHandlers, Change(t, oldBucket, newBucket));
      if newBucket.None? {
        sorting := sorting.(oldBuckets := sorting.oldBuckets - {t});
      } else {
        sorting := sorting.(oldBuckets := sorting.oldBuckets[t := newBucket.value]);
      }
    }

    /** The delete handler. */
    method OnDelete(t: T)
      requires sorting.Valid()
      modifies this`sorting, this`calls
      ensures sorting.Valid() && forall b :: t !in sorting.Members(b)
      ensures sorting == Deleted(old(sorting), t).sorting
      ensures calls == old(calls) + FanOut(changeHandlers, Change(t, old(sorting).Recorded(t), None))
    {
      var oldBucket := sorting.Recorded(t);
      ghost var expected := Deleted(sorting, t);
      sorting := sorting.Take(oldBucket, t);
      calls := calls + FanOut(changeHandlers, Change(t, oldBucket, None));
    }
  }

  /**
   * A task sorted into bucket 1, re-evaluated unchanged and then moved to bucket
   * 2 produces two events, and ends in bucket 2 only.
   */
  method MoveScenario(h: HandlerId) returns (changes: seq<Change<int, int>>, inFirst: bool, inSecond: bool)
    ensures changes == [Change(7, None, Some(1)), Change(7, Some(1), Some(2))]
    ensures !inFirst && inSecond
  {
    var s := new TasksSorter<int, int>();
    s.OnBucketChange(h);
    s.Evaluate(7, true, true, Some(1));
    s.Evaluate(7, true, true, Some(1));
    s.Evaluate(7, true, true, Some(2));
    EvaluatedPlacesTask(Sorting(map[], map[]), 7, true, true, Some(1), 1);
    assert |s.calls| == 2;
    changes := [s.calls[0].args, s.calls[1].args];
    inFirst := 7 in s.sorting.Members(1);
    inSecond := 7 in s.sorting.Members(2);
  }

  /**
   * A task sorted into bucket 1, then hidden and then deleted, produces three
   * events; the last two report no new bucket, the delete reports no old bucket
   * either, and the task ends in no bucket.
   */
  method HideDeleteScenario(h: HandlerId) returns (changes: seq<Change<int, int>>, inAny: bool)
    ensures changes == [Change(7, None, Some(1)), Change(7, Some(1), None), Change(7, None, None)]
    ensures !inAny
  {
    var s := new TasksSorter<int, int>();
    s.OnBucketChange(h);
    assert s.changeHandlers == [h];
    s.Evaluate(7, true, true, Some(1));
    assert s.calls == [Call(h, Change(7, None, Some(1)))];
    s.Evaluate(7, false, true, Some(1));
    assert s.sorting.Recorded(7) == None;
    s.OnDelete(7);
    assert |s.calls| == 3;
    changes := [s.calls[0].args, s.calls[1].args, s.calls[2].args];
    inAny := 7 in s.sorting.Members(1) || 7 in s.sorting.Members(2);
  }
}
