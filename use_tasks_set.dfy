/**
 * `useTasksSet` (src/lib/composables/useTasksSet.svelte.ts): the closure form of
 * the client task index. It shares `Task` and the link helpers with `TasksSet`
 * but stores tasks in a plain reactive map and has its own two `useEvent`
 * channels: `addTask` emits only an add event (an overwritten task is not
 * reported), and `delTask` always emits with the task it was given.
 */
module UseTasksSets {
  import opened Options
  import opened OrderedSets
  import opened Events
  import opened ChildIndex
  import opened Tasks

  /**
   * A closure in the add channel's handler set: a handler passed to `onAddTask`
   * itself, or the n-th wrapper closure `taskEffect` creates around handler `h`.
   * A wrapper is a different function from `h`, and from every other wrapper.
   */
  datatype AddHandler = Direct(h: HandlerId) | Wrapper(h: HandlerId, n: nat)

  /** The handler each closure ends up calling, in set order. */
  function Targets(handlers: seq<AddHandler>): (r: seq<HandlerId>)
    ensures |r| == |handlers| && forall i :: 0 <= i < |handlers| ==> r[i] == handlers[i].h
  {
    if handlers == [] then [] else [handlers[0].h] + Targets(handlers[1..])
  }

  class UseTasksSet {
    var tasks: map<int, Task>
    var parentsToChildIds: map<int, seq<int>>
    /** The add channel's handler set: direct `onAddTask` registrations and `taskEffect` wrappers. */
    var addHandlers: seq<AddHandler>
    /** How many wrappers `taskEffect` has created so far. */
    var wrappers: nat
    /** The delete channel's handler set. */
    var delHandlers: seq<HandlerId>
    var calls: seq<Call<HandlerId, Task>>

    /** Both channels are sets, and every wrapper in the add channel is numbered below `wrappers`. */
    ghost predicate Valid()
      reads this
    {
      && WellFormed(parentsToChildIds) && NoDup(addHandlers) && NoDup(delHandlers)
      && forall i :: 0 <= i < |addHandlers| && addHandlers[i].Wrapper? ==> addHandlers[i].n < wrappers
    }

    /**
     * Every stored task whose parent id is set is listed in that parent's child
     * set; `delTask` breaks this for the children of the deleted task, whose
     * child set it drops.
     */
    ghost predicate Linked()
      reads this, tasks.Values`parentId
    {
      forall k :: k in tasks ==> LinkedAt(parentsToChildIds, k, tasks[k].parentId)
    }

    /** Every entry but the one under the remembered id is stored under its task's id. */
    ghost predicate StaleOnlyAt(last: Option<Filing>)
      reads this, tasks.Values`id
    {
      forall k :: k in tasks && tasks[k].id != k ==> last.Some? && k == last.value.id
    }

    /** Every entry holding a task other than `t` is listed in its parent's child set. */
    ghost predicate LinkedBesides(t: Task)
      reads this, tasks.Values`parentId
    {
      forall k :: k in tasks && tasks[k] != t ==> LinkedAt(parentsToChildIds, k, tasks[k].parentId)
    }

    constructor ()
      ensures Valid() && Linked()
      ensures tasks == map[] && parentsToChildIds == map[]
      ensures addHandlers == [] && wrappers == 0 && delHandlers == [] && calls == []
    {
      tasks := map[];
      parentsToChildIds := map[];
      addHandlers := [];
      wrappers := 0;
      delHandlers := [];
      calls := [];
    }

    /**
     * `onAddTask(handler)`: a handler already registered directly is not added
     * again; a `taskEffect` wrapper around it is another closure and does not
     * stop it from joining.
     */
    method OnAddTask(h: HandlerId)
      requires Valid()
      modifies this`addHandlers
      ensures Valid()
      ensures addHandlers == Add(old(addHandlers), Direct(h))
    {
      addHandlers := Add(addHandlers, Direct(h));
    }

    /** `onDelTask(handler)` */
    method OnDelTask(h: HandlerId)
      requires Valid()
      modifies this`delHandlers
      ensures Valid()
      ensures delHandlers == Add(old(delHandlers), h)
    {
      delHandlers := Add(delHandlers, h);
    }

    /**
     * The `onDestroy` callback that registering closure `c` on the add channel
     * arranges (`c` is a direct handler or a `taskEffect` wrapper): `c` leaves
     * the set, and the other closures keep their order.
     */
    method TeardownAddTask(c: AddHandler)
      requires Valid()
      modifies this`addHandlers
      ensures Valid()
      ensures addHandlers == Remove(old(addHandlers), c)
    {
      addHandlers := Remove(addHandlers, c);
      forall i | 0 <= i < |addHandlers| && addHandlers[i].Wrapper?
        ensures addHandlers[i].n < wrappers
      {
        assert addHandlers[i] in old(addHandlers);
        var j :| 0 <= j < |old(addHandlers)| && old(addHandlers)[j] == addHandlers[i];
      }
    }

    /** The `onDestroy` callback of an `onDelTask(h)` registration. */
    method TeardownDelTask(h: HandlerId)
      requires Valid()
      modifies this`delHandlers
      ensures Valid()
      ensures delHandlers == Remove(old(delHandlers), h)
    {
      delHandlers := Remove(delHandlers, h);
    }

    /**
     * `addTask(baseTask)`: builds the task, stores it under its id, links it to its
     * parent and emits one add event; a task previously stored under that id is
     * silently replaced.
     */
    method AddTask(base: ApiTask) returns (t: Task)
      requires Valid()
      modifies this`tasks, this`parentsToChildIds, this`calls
      ensures Valid()
      ensures fresh(t) && t.Mirrors(base) && t.lastFiled == None
      ensures tasks == old(tasks)[base.id := t]
      ensures parentsToChildIds == Link(old(parentsToChildIds), base.id, base.parentId)
      ensures calls == old(calls) + FanOut(Targets(addHandlers), t)
      ensures old(Linked()) ==> Linked()
    {
      t := new Task(base);
      tasks := tasks[t.id := t];
      parentsToChildIds := Link(parentsToChildIds, t.id, t.parentId);
      calls := calls + FanOut(Targets(addHandlers), t);
      if old(Linked()) {
        forall k | k in tasks
          ensures LinkedAt(parentsToChildIds, k, tasks[k].parentId)
        {
          LinkKeepsLinked(old(parentsToChildIds), t.id, t.parentId, k, tasks[k].parentId);
        }
      }
    }

    /** `getTask(id)` */
    function GetTask(id: int): (r: Option<Task>)
      reads this
      ensures r.Some? <==> id in tasks
      ensures r.Some? ==> r.value == tasks[id]
    {
      if id in tasks then Some(tasks[id]) else None
    }

    /**
     * `delTask(task)`: unlinks, deletes the entry under the task's id and its
     * child set, and emits a delete event with the given task whether or not
     * anything was stored.
     */
    method DelTask(t: Task)
      requires Valid()
      modifies this`tasks, this`parentsToChildIds, this`calls
      ensures Valid()
      ensures tasks == old(tasks) - {t.id}
      ensures parentsToChildIds == Unlink(old(parentsToChildIds), t.id, t.parentId) - {t.id}
      ensures calls == old(calls) + FanOut(delHandlers, t)
      ensures old(Linked()) ==>
        forall k :: k in tasks && tasks[k].parentId != Some(t.id) ==> LinkedAt(parentsToChildIds, k, tasks[k].parentId)
      ensures forall k :: k in tasks && tasks[k].parentId == Some(t.id) ==> !LinkedAt(parentsToChildIds, k, tasks[k].parentId)
    {
      parentsToChildIds := Unlink(parentsToChildIds, t.id, t.parentId);
      tasks := tasks - {t.id};
      parentsToChildIds := parentsToChildIds - {t.id};
      calls := calls + FanOut(delHandlers, t);
      if old(Linked()) {
        forall k | k in tasks && tasks[k].parentId != Some(t.id)
          ensures LinkedAt(parentsToChildIds, k, tasks[k].parentId)
        {
          var q := tasks[k].parentId;
          UnlinkKeepsLinked(old(parentsToChildIds), t.id, t.parentId, k, q);
          DropKeepsLinked(Unlink(old(parentsToChildIds), t.id, t.parentId), t.id, k, q);
        }
      }
    }

    /**
     * `taskEffect(handler)`: calls the handler on every stored task, in the map's
     * order (returned as `visited`), then registers a new wrapper closure for
     * tasks added later, so it is appended even when `handler` is registered,
     * directly or through an earlier `taskEffect`.
     */
    method TaskEffect(fn: HandlerId) returns (visited: seq<int>)
      requires Valid()
      modifies this`calls, this`addHandlers, this`wrappers
      ensures Valid()
      ensures NoDup(visited)
      ensures forall i :: 0 <= i < |visited| ==> visited[i] in tasks
      ensures forall k :: k in tasks ==> k in visited
      ensures calls == old(calls) + CallEach(fn, tasks, visited)
      ensures Wrapper(fn, old(wrappers)) !in old(addHandlers)
      ensures addHandlers == old(addHandlers) + [Wrapper(fn, old(wrappers))]
      ensures wrappers == old(wrappers) + 1
    {
      var effects;
      visited, effects := CallOnEachValue(fn, tasks);
      calls := calls + effects;
      addHandlers := addHandlers + [Wrapper(fn, wrappers)];
      wrappers := wrappers + 1;
    }

    /** The re-indexing effect of task `t` (Task.svelte.ts) on this index's maps; it emits nothing. */
    method ReindexEffect(t: Task)
      requires Valid()
      modifies this`tasks, this`parentsToChildIds, t`lastFiled
      ensures Valid()
      ensures old(t.lastFiled) == Some(Filing(t.id, t.parentId)) ==>
        tasks == old(tasks) && parentsToChildIds == old(parentsToChildIds) && t.lastFiled == old(t.lastFiled)
      ensures old(t.lastFiled) != Some(Filing(t.id, t.parentId)) ==>
        && Index(tasks, parentsToChildIds) == Refiled(old(tasks), old(parentsToChildIds), t, t.id, t.parentId, old(t.lastFiled))
        && t.lastFiled == Some(Filing(t.id, t.parentId))
      ensures old(t.lastFiled) == Some(Filing(t.id, t.parentId)) && old(Linked()) ==> Linked()
      ensures old(t.lastFiled) != Some(Filing(t.id, t.parentId)) && old(StaleOnlyAt(t.lastFiled)) && old(LinkedBesides(t)) ==> Linked()
    {
      var last := t.lastFiled;
      if last == Some(Filing(t.id, t.parentId)) {
        return;
      }
      if old(StaleOnlyAt(t.lastFiled)) && old(LinkedBesides(t)) {
        RefiledLinked(old(tasks), old(parentsToChildIds), t, last);
      }
      if last.Some? {
        tasks := tasks - {last.value.id};
        parentsToChildIds := Unlink(parentsToChildIds, last.value.id, last.value.parentId);
      }
      tasks := tasks[t.id := t];
      parentsToChildIds := Link(parentsToChildIds, t.id, t.parentId);
      t.lastFiled := Some(Filing(t.id, t.parentId));
    }
  }

  /**
   * A handler registered twice is called once per event; adding over an existing
   * id reports only the new task, and deleting reports the given task even when
   * nothing is stored under its id any more.
   */
  method EventScenario(h: HandlerId) returns (a: Task, b: Task, calls: seq<Call<HandlerId, Task>>)
    ensures a.title == "a" && b.title == "b"
    ensures calls == [Call(h, a), Call(h, b), Call(h, b), Call(h, b)]
  {
    var s := new UseTasksSet();
    s.OnAddTask(h);
    s.OnAddTask(h);
    s.OnDelTask(h);
    assert s.addHandlers == [Direct(h)] && s.delHandlers == [h];
    assert Targets(s.addHandlers) == [h];
    a := s.AddTask(ApiTask(1, "a", None, None, false, false, false, false, 0.0, 0.0, 0.0));
    assert FanOut([h], a) == [Call(h, a)];
    ghost var c1 := s.calls;
    assert c1 == [Call(h, a)];
    b := s.AddTask(ApiTask(1, "b", None, None, false, false, false, false, 0.0, 0.0, 0.0));
    assert FanOut([h], b) == [Call(h, b)];
    ghost var c2 := s.calls;
    assert c2 == c1 + [Call(h, b)];
    s.DelTask(b);
    ghost var c3 := s.calls;
    assert c3 == c2 + [Call(h, b)];
    s.DelTask(b);
    calls := s.calls;
    assert calls == c3 + [Call(h, b)];
  }

  /**
   * `taskEffect(h)` followed by `onAddTask(h)` registers two closures, so a
   * task added afterwards reaches h twice; a second `taskEffect(h)` adds a
   * third, while a second `onAddTask(h)` adds nothing.
   */
  method WrapperScenario(h: HandlerId) returns (calls: seq<Call<HandlerId, Task>>, t: Task)
    ensures calls == [Call(h, t), Call(h, t), Call(h, t)]
  {
    var s := new UseTasksSet();
    var first := s.TaskEffect(h);
    assert first == [];
    s.OnAddTask(h);
    s.OnAddTask(h);
    var second := s.TaskEffect(h);
    assert second == [];
    assert s.calls == [];
    assert s.addHandlers == [Wrapper(h, 0), Direct(h), Wrapper(h, 1)];
    assert Targets(s.addHandlers) == [h, h, h];
    t := s.AddTask(ApiTask(1, "a", None, None, false, false, false, false, 0.0, 0.0, 0.0));
    assert s.calls == FanOut([h, h, h], t);
    assert FanOut([h, h, h], t) == [Call(h, t)] + FanOut([h, h], t);
    calls := s.calls;
  }

  /**
   * Tearing down the component that called `onAddTask(h)` removes that closure
   * only: the `taskEffect` wrapper around h stays, so a task added afterwards
   * reaches h once; tearing down the `onDelTask(h)` registration silences the
   * delete event.
   */
  method TeardownScenario(h: HandlerId) returns (calls: seq<Call<HandlerId, Task>>, t: Task)
    ensures calls == [Call(h, t)]
  {
    var s := new UseTasksSet();
    var first := s.TaskEffect(h);
    assert first == [] && s.calls == [];
    s.OnAddTask(h);
    assert s.addHandlers == [Wrapper(h, 0), Direct(h)];
    s.OnDelTask(h);
    s.TeardownAddTask(Direct(h));
    assert s.addHandlers == [Wrapper(h, 0)];
    s.TeardownDelTask(h);
    assert s.delHandlers == [];
    t := s.AddTask(ApiTask(1, "a", None, None, false, false, false, false, 0.0, 0.0, 0.0));
    assert s.calls == FanOut([h], t) == [Call(h, t)];
    s.DelTask(t);
    calls := s.calls;
  }
}
