/**
 * `TasksSet` (src/lib/composables/TasksSet.svelte.ts): the class form of the
 * client task index. Tasks live in an `EventMap` keyed by id, so storing a task
 * under an id that is taken first emits a delete event with the displaced task,
 * and every store emits an add event. The child index is a second `EventMap`
 * to which nothing subscribes; it is a plain map here.
 *
 * Handler invocations are logged in `calls`; a handler's own effect is the
 * method that models it (for instance `TasksGraphLayouts.TasksGraphLayout.OnTaskAdded`).
 */
module TasksSets {
  import opened Options
  import opened OrderedSets
  import opened Events
  import opened ChildIndex
  import opened Tasks

  class TasksSet {
    var tasks: map<int, Task>
    var parentsToChildIds: map<int, seq<int>>
    /** Handlers registered through `onAdd` (each registration wraps the function in a new closure). */
    var addHandlers: seq<HandlerId>
    /** Handlers registered through `onDel`. */
    var delHandlers: seq<HandlerId>
    var calls: seq<Call<HandlerId, Task>>

    ghost predicate Valid()
      reads this
    {
      WellFormed(parentsToChildIds)
    }

    /** Every task is stored under its own id (a task whose id was just reassigned breaks this until its effect runs). */
    predicate KeysMatch()
      reads this, tasks.Values`id
    {
      forall k :: k in tasks ==> tasks[k].id == k
    }

    /**
     * Every stored task whose parent id is set is listed in that parent's child
     * set; `delTask` breaks this for the children of the deleted task, whose
     * child set it drops.
     */
    ghost predicate Linked()
      reads this, tasks.Values`parentId
    {
      forall k :: k in tasks ==> LinkedAt(parentsToChildIds, k, tasks[k].parentId)
    }

    /** Every entry but the one under the remembered id is stored under its task's id. */
    ghost predicate StaleOnlyAt(last: Option<Filing>)
      reads this, tasks.Values`id
    {
      forall k :: k in tasks && tasks[k].id != k ==> last.Some? && k == last.value.id
    }

    /** Every entry holding a task other than `t` is listed in its parent's child set. */
    ghost predicate LinkedBesides(t: Task)
      reads this, tasks.Values`parentId
    {
      forall k :: k in tasks && tasks[k] != t ==> LinkedAt(parentsToChildIds, k, tasks[k].parentId)
    }

    constructor ()
      ensures Valid() && KeysMatch() && Linked()
      ensures tasks == map[] && parentsToChildIds == map[]
      ensures addHandlers == [] && delHandlers == [] && calls == []
    {
      tasks := map[];
      parentsToChildIds := map[];
      addHandlers := [];
      delHandlers := [];
      calls := [];
    }

    /** `onAdd(fn)`: a new wrapper closure joins the add handlers, even for a function already registered. */
    method OnAdd(fn: HandlerId)
      modifies this`addHandlers
      ensures addHandlers == old(addHandlers) + [fn]
    {
      addHandlers := addHandlers + [fn];
    }

    /** `onDel(fn)` */
    method OnDel(fn: HandlerId)
      modifies this`delHandlers
      ensures delHandlers == old(delHandlers) + [fn]
    {
      delHandlers := delHandlers + [fn];
    }

    /**
     * The component teardown of the `onAdd` registration at position `i`: its
     * wrapper closure leaves the handler set, so the wrapped function loses
     * one registration and every other registration stays, in order.
     */
    method TeardownAdd(i: nat)
      requires i < |addHandlers|
      modifies this`addHandlers
      ensures addHandlers == old(addHandlers)[..i] + old(addHandlers)[i + 1..]
      ensures multiset(addHandlers) == multiset(old(addHandlers)) - multiset{old(addHandlers)[i]}
    {
      assert addHandlers == addHandlers[..i] + [addHandlers[i]] + addHandlers[i + 1..];
      addHandlers := addHandlers[..i] + addHandlers[i + 1..];
    }

    /** The component teardown of the `onDel` registration at position `i`. */
    method TeardownDel(i: nat)
      requires i < |delHandlers|
      modifies this`delHandlers
      ensures delHandlers == old(delHandlers)[..i] + old(delHandlers)[i + 1..]
      ensures multiset(delHandlers) == multiset(old(delHandlers)) - multiset{old(delHandlers)[i]}
    {
      assert delHandlers == delHandlers[..i] + [delHandlers[i]] + delHandlers[i + 1..];
      delHandlers := delHandlers[..i] + delHandlers[i + 1..];
    }

    /** `#unlinkFromParent` */
    method UnlinkFromParent(childId: int, parentId: Option<int>)
      requires Valid()
      modifies this`parentsToChildIds
      ensures parentsToChildIds == Unlink(old(parentsToChildIds), childId, parentId)
      ensures Valid()
    {
      parentsToChildIds := Unlink(parentsToChildIds, childId, parentId);
    }

    /** `#linkToParent` */
    method LinkToParent(childId: int, parentId: Option<int>)
      requires Valid()
      modifies this`parentsToChildIds
      ensures parentsToChildIds == Link(old(parentsToChildIds), childId, parentId)
      ensures Valid()
    {
      parentsToChildIds := Link(parentsToChildIds, childId, parentId);
    }

    /** `EventMap.delete` on the task map: a delete event with the stored task, only when the key is present. */
    method DeleteEntry(key: int)
      modifies this`tasks, this`calls
      ensures tasks == old(tasks) - {key}
      ensures calls == old(calls) + if key in old(tasks) then FanOut(delHandlers, old(tasks)[key]) else []
    {
      if key !in tasks {
        return;
      }
      var item := tasks[key];
      tasks := tasks - {key};
      calls := calls + FanOut(delHandlers, item);
    }

    /** `EventMap.set` on the task map: delete first, then store, then one add event. */
    method SetEntry(key: int, t: Task)
      modifies this`tasks, this`calls
      ensures tasks == old(tasks)[key := t]
      ensures calls == old(calls)
        + (if key in old(tasks) then FanOut(delHandlers, old(tasks)[key]) else [])
        + FanOut(addHandlers, t)
    {
      DeleteEntry(key);
      tasks := tasks[key := t];
      calls := calls + FanOut(addHandlers, t);
    }

    /**
     * `addTask(baseTask)`: builds the task, stores it under its id (a task already
     * there is reported deleted first) and links it to its parent.
     */
    method AddTask(base: ApiTask) returns (t: Task)
      requires Valid()
      modifies this`tasks, this`parentsToChildIds, this`calls
      ensures Valid()
      ensures fresh(t) && t.Mirrors(base) && t.lastFiled == None
      ensures tasks == old(tasks)[base.id := t]
      ensures parentsToChildIds == Link(old(parentsToChildIds), base.id, base.parentId)
      ensures calls == old(calls)
        + (if base.id in old(tasks) then FanOut(delHandlers, old(tasks)[base.id]) else [])
        + FanOut(addHandlers, t)
      ensures old(Linked()) ==> Linked()
    {
      t := new Task(base);
      SetEntry(t.id, t);
      LinkToParent(t.id, t.parentId);
      if old(Linked()) {
        forall k | k in tasks
          ensures LinkedAt(parentsToChildIds, k, tasks[k].parentId)
        {
          LinkKeepsLinked(old(parentsToChildIds), t.id, t.parentId, k, tasks[k].parentId);
        }
      }
    }

    /** `getTask(id)` */
    function GetTask(id: int): (r: Option<Task>)
      reads this
      ensures r.Some? <==> id in tasks
      ensures r.Some? ==> r.value == tasks[id]
    {
      if id in tasks then Some(tasks[id]) else None
    }

    /**
     * `delTask(task)`: unlinks the task from its parent, deletes whatever is stored
     * under its id (reporting that stored task, if any) and drops its child set.
     */
    method DelTask(t: Task)
      requires Valid()
      modifies this`tasks, this`parentsToChildIds, this`calls
      ensures Valid()
      ensures tasks == old(tasks) - {t.id}
      ensures parentsToChildIds == Unlink(old(parentsToChildIds), t.id, t.parentId) - {t.id}
      ensures calls == old(calls) + if t.id in old(tasks) then FanOut(delHandlers, old(tasks)[t.id]) else []
      ensures old(Linked()) ==>
        forall k :: k in tasks && tasks[k].parentId != Some(t.id) ==> LinkedAt(parentsToChildIds, k, tasks[k].parentId)
      ensures forall k :: k in tasks && tasks[k].parentId == Some(t.id) ==> !LinkedAt(parentsToChildIds, k, tasks[k].parentId)
    {
      UnlinkFromParent(t.id, t.parentId);
      DeleteEntry(t.id);
      parentsToChildIds := parentsToChildIds - {t.id};
      if old(Linked()) {
        forall k | k in tasks && tasks[k].parentId != Some(t.id)
          ensures LinkedAt(parentsToChildIds, k, tasks[k].parentId)
        {
          var q := tasks[k].parentId;
          UnlinkKeepsLinked(old(parentsToChildIds), t.id, t.parentId, k, q);
          DropKeepsLinked(Unlink(old(parentsToChildIds), t.id, t.parentId), t.id, k, q);
        }
      }
    }

    /**
     * `taskEffect(fn)`: calls `fn` once on every stored task, in the map's order
     * (returned as `visited`), then registers it for every task added later.
     */
    method TaskEffect(fn: HandlerId) returns (visited: seq<int>)
      modifies this`calls, this`addHandlers
      ensures NoDup(visited)
      ensures forall i :: 0 <= i < |visited| ==> visited[i] in tasks
      ensures forall k :: k in tasks ==> k in visited
      ensures calls == old(calls) + CallEach(fn, tasks, visited)
      ensures addHandlers == old(addHandlers) + [fn]
    {
      var effects;
      visited, effects := CallOnEachValue(fn, tasks);
      calls := calls + effects;
      OnAdd(fn);
    }

    /**
     * The re-indexing effect of task `t` (Task.svelte.ts), run on this set's maps:
     * nothing when the task's id and parent are the ones it last filed; otherwise
     * the maps become `Refiled(...)`. No event is emitted: the effect writes the
     * underlying map directly.
     */
    method ReindexEffect(t: Task)
      requires Valid()
      modifies this`tasks, this`parentsToChildIds, t`lastFiled
      ensures Valid()
      ensures old(t.lastFiled) == Some(Filing(t.id, t.parentId)) ==>
        tasks == old(tasks) && parentsToChildIds == old(parentsToChildIds) && t.lastFiled == old(t.lastFiled)
      ensures old(t.lastFiled) != Some(Filing(t.id, t.parentId)) ==>
        && Index(tasks, parentsToChildIds) == Refiled(old(tasks), old(parentsToChildIds), t, t.id, t.parentId, old(t.lastFiled))
        && t.lastFiled == Some(Filing(t.id, t.parentId))
      ensures old(t.lastFiled) != Some(Filing(t.id, t.parentId)) && old(StaleOnlyAt(t.lastFiled)) ==> KeysMatch()
      ensures old(t.lastFiled) == Some(Filing(t.id, t.parentId)) && old(Linked()) ==> Linked()
      ensures old(t.lastFiled) != Some(Filing(t.id, t.parentId)) && old(StaleOnlyAt(t.lastFiled)) && old(LinkedBesides(t)) ==> Linked()
    {
      var last := t.lastFiled;
      if last == Some(Filing(t.id, t.parentId)) {
        return;
      }
      if old(StaleOnlyAt(t.lastFiled)) && old(LinkedBesides(t)) {
        RefiledLinked(old(tasks), old(parentsToChildIds), t, last);
      }
      if last.Some? {
        tasks := tasks - {last.value.id};
        UnlinkFromParent(last.value.id, last.value.parentId);
      }
      tasks := tasks[t.id := t];
      LinkToParent(t.id, t.parentId);
      t.lastFiled := Some(Filing(t.id, t.parentId));
    }
  }

  /**
   * With one add handler and one delete handler registered, inserting task 5 as
   * a root and then re-parenting it under 2 leaves it in 2's child set only,
   * linked, and calls the add handler once with the task and nothing else: the
   * re-indexing effect emits no event.
   */
  method ReparentScenario() returns (t: Task, keys: set<int>, childSets: map<int, seq<int>>, calls: seq<Call<HandlerId, Task>>)
    ensures keys == {5} && childSets == map[2 := [5]] && calls == [Call(1, t)]
  {
    var s := new TasksSet();
    s.OnAdd(1);
    s.OnDel(2);
    t := s.AddTask(ApiTask(5, "five", None, None, false, false, false, false, 0.0, 0.0, 0.0));
    assert FanOut(s.addHandlers, t) == [Call(1, t)];
    s.ReindexEffect(t);
    t.parentId := Some(2);
    s.ReindexEffect(t);
    assert s.Linked();
    keys := s.tasks.Keys;
    childSets := s.parentsToChildIds;
    calls := s.calls;
  }

  /**
   * A function passed to `onAdd` twice is called twice per add event; after
   * one registration is torn down, it is called once, and the torn-down
   * delete registration is not called at all.
   */
  method TeardownScenario() returns (t: Task, calls: seq<Call<HandlerId, Task>>)
    ensures calls == [Call(1, t)]
  {
    var s := new TasksSet();
    s.OnAdd(1);
    s.OnAdd(1);
    s.OnDel(2);
    s.TeardownAdd(0);
    s.TeardownDel(0);
    assert s.addHandlers == [1] && s.delHandlers == [];
    t := s.AddTask(ApiTask(5, "five", None, None, false, false, false, false, 0.0, 0.0, 0.0));
    assert FanOut(s.addHandlers, t) == [Call(1, t)];
    calls := s.calls;
  }
}
