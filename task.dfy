/**
 * `Task` (src/lib/composables/Task.svelte.ts): one task of the client index, with
 * its in-place mutable fields and its derived values, which look the task's
 * parent and children up in the shared index maps `tasks` and
 * `parentsToChildIds`. Derived values are functions of those maps.
 *
 * The source recurses through the maps and terminates only when the parent
 * links and the child links are acyclic. That assumption is made explicit by
 * two ghost rank maps: `depth` (a parent ranks below its child) bounds walks up
 * the parent chain, and `height` (a child ranks below its parent) bounds folds
 * over the children.
 */
module Tasks {
  import opened Options
  import opened Layout
  import opened ChildIndex

  /** The server's task record the client builds tasks from. */
  datatype ApiTask = ApiTask(
    id: int, title: string, priority: Option<int>, parentId: Option<int>,
    hideChildren: bool, alwaysExpanded: bool, clear: bool, trashed: bool,
    hrCompleted: real, hrRemaining: real, hrEstimatedOrig: real)

  /**
   * The `(lastId, lastParentId)` pair remembered by a task's re-indexing effect;
   * `None` until the effect has run once.
   */
  datatype Filing = Filing(id: int, parentId: Option<int>)

  class Task {
    var id: int
    var title: string
    var priority: Option<int>
    var parentId: Option<int>
    var hideChildren: bool
    var alwaysExpanded: bool
    var clear: bool
    var trashed: bool
    var hrCompleted: real
    var hrRemaining: real
    var hrEstimatedOrig: real
    /** Written by the layout engine. */
    var pos: Point
    /** State of the re-indexing effect created by the constructor. */
    var lastFiled: Option<Filing>

    predicate Mirrors(base: ApiTask)
      reads this
    {
      && id == base.id && title == base.title && priority == base.priority
      && parentId == base.parentId && hideChildren == base.hideChildren
      && alwaysExpanded == base.alwaysExpanded && clear == base.clear && trashed == base.trashed
      && hrCompleted == base.hrCompleted && hrRemaining == base.hrRemaining
      && hrEstimatedOrig == base.hrEstimatedOrig
    }

    /** Copies every field of the record; the position starts at the origin. */
    constructor (base: ApiTask)
      ensures Mirrors(base) && pos == Point(0.0, 0.0) && lastFiled == None
    {
      id := base.id;
      title := base.title;
      priority := base.priority;
      parentId := base.parentId;
      hideChildren := base.hideChildren;
      alwaysExpanded := base.alwaysExpanded;
      clear := base.clear;
      trashed := base.trashed;
      hrCompleted := base.hrCompleted;
      hrRemaining := base.hrRemaining;
      hrEstimatedOrig := base.hrEstimatedOrig;
      pos := Point(0.0, 0.0);
      lastFiled := None;
    }
  }

  // ---------------------------------------------------------------------------
  // Hour totals
  // ---------------------------------------------------------------------------

  /** Which of the three hour fields a total sums. */
  datatype Hours = Completed | Remaining | EstimatedOrig

  function Own(t: Task, h: Hours): real
    reads t`hrCompleted, t`hrRemaining, t`hrEstimatedOrig
  {
    match h
    case Completed => t.hrCompleted
    case Remaining => t.hrRemaining
    case EstimatedOrig => t.hrEstimatedOrig
  }

  /** Every indexed child of `t` ranks strictly below `t`. */
  ghost predicate Above(tasks: map<int, Task>, childIds: map<int, seq<int>>, height: map<Task, nat>, t: Task)
    reads t`id
  {
    && t in height
    && (t.id in childIds ==>
          forall c :: c in childIds[t.id] && c in tasks ==> tasks[c] in height && height[tasks[c]] < height[t])
  }

  /** The child links among indexed tasks are acyclic, as witnessed by `height`. */
  ghost predicate HeightRanked(tasks: map<int, Task>, childIds: map<int, seq<int>>, height: map<Task, nat>)
    reads tasks.Values`id
  {
    forall k :: k in tasks ==> Above(tasks, childIds, height, tasks[k])
  }

  /**
   * `hrCompletedTotal`, `hrRemainingTotal`, `hrEstimateTotalOriginal`: the task's
   * own hours plus the totals of the children listed under its id, where a listed
   * id with no task contributes 0 and a task without a child set adds nothing.
   */
  function HrTotal(tasks: map<int, Task>, childIds: map<int, seq<int>>, ghost height: map<Task, nat>, h: Hours, t: Task): (r: real)
    reads t`id, t`hrCompleted, t`hrRemaining, t`hrEstimatedOrig
    reads tasks.Values`id, tasks.Values`hrCompleted, tasks.Values`hrRemaining, tasks.Values`hrEstimatedOrig
    requires HeightRanked(tasks, childIds, height) && Above(tasks, childIds, height, t)
    ensures t.id !in childIds ==> r == Own(t, h)
    decreases height[t], 1
  {
    Own(t, h) + if t.id in childIds then ChildSum(tasks, childIds, height, h, t, |childIds[t.id]|) else 0.0
  }

  /**
   * The `reduce((a, b) => a + b, 0)` over the first `n` child ids of `parent`,
   * a left fold in the set's insertion order.
   */
  function ChildSum(tasks: map<int, Task>, childIds: map<int, seq<int>>, ghost height: map<Task, nat>, h: Hours, parent: Task, n: nat): (r: real)
    reads parent`id
    reads tasks.Values`id, tasks.Values`hrCompleted, tasks.Values`hrRemaining, tasks.Values`hrEstimatedOrig
    requires HeightRanked(tasks, childIds, height) && Above(tasks, childIds, height, parent)
    requires parent.id in childIds && n <= |childIds[parent.id]|
    ensures n == 0 ==> r == 0.0
    decreases height[parent], 0, n
  {
    if n == 0 then 0.0
    else
      var c := childIds[parent.id][n - 1];
      ChildSum(tasks, childIds, height, h, parent, n - 1)
        + if c in tasks then HrTotal(tasks, childIds, height, h, tasks[c]) else 0.0
  }

  /**
   * A chain root 1, child 2, grandchild 3 with 1, 2 and 3 completed hours rolls
   * up to completed totals 6, 5 and 3.
   */
  lemma ThreeLevelTotals(t1: Task, t2: Task, t3: Task, tasks: map<int, Task>, childIds: map<int, seq<int>>, height: map<Task, nat>)
    requires t1.id == 1 && t2.id == 2 && t3.id == 3
    requires t1.hrCompleted == 1.0 && t2.hrCompleted == 2.0 && t3.hrCompleted == 3.0
    requires tasks == map[1 := t1, 2 := t2, 3 := t3]
    requires childIds == map[1 := [2], 2 := [3]]
    requires height == map[t1 := 2, t2 := 1, t3 := 0]
    ensures HeightRanked(tasks, childIds, height)
    ensures HrTotal(tasks, childIds, height, Completed, t3) == 3.0
    ensures HrTotal(tasks, childIds, height, Completed, t2) == 5.0
    ensures HrTotal(tasks, childIds, height, Completed, t1) == 6.0
  {
  }

  /** No task in the index, nor `t`, has a negative hour field. */
  ghost predicate NonNegative(tasks: map<int, Task>, t: Task)
    reads t, tasks.Values
  {
    && t.hrCompleted >= 0.0 && t.hrRemaining >= 0.0 && t.hrEstimatedOrig >= 0.0
    && forall k :: k in tasks ==>
         tasks[k].hrCompleted >= 0.0 && tasks[k].hrRemaining >= 0.0 && tasks[k].hrEstimatedOrig >= 0.0
  }

  /**
   * With no negative hours, a total is at least the task's own hours and at
   * least the total of each indexed child.
   */
  lemma {:induction false} TotalBoundsParts(tasks: map<int, Task>, childIds: map<int, seq<int>>, height: map<Task, nat>, h: Hours, t: Task)
    requires HeightRanked(tasks, childIds, height) && Above(tasks, childIds, height, t)
    requires NonNegative(tasks, t)
    ensures HrTotal(tasks, childIds, height, h, t) >= Own(t, h) >= 0.0
    ensures t.id in childIds ==>
      forall c :: c in childIds[t.id] && c in tasks ==>
        HrTotal(tasks, childIds, height, h, t) >= HrTotal(tasks, childIds, height, h, tasks[c])
    decreases height[t], 1
  {
    if t.id in childIds {
      ChildSumBoundsParts(tasks, childIds, height, h, t, |childIds[t.id]|);
      assert childIds[t.id][..|childIds[t.id]|] == childIds[t.id];
    }
  }

  lemma {:induction false} ChildSumBoundsParts(tasks: map<int, Task>, childIds: map<int, seq<int>>, height: map<Task, nat>, h: Hours, parent: Task, n: nat)
    requires HeightRanked(tasks, childIds, height) && Above(tasks, childIds, height, parent)
    requires parent.id in childIds && n <= |childIds[parent.id]|
    requires NonNegative(tasks, parent)
    ensures ChildSum(tasks, childIds, height, h, parent, n) >= 0.0
    ensures forall c :: c in childIds[parent.id][..n] && c in tasks ==>
      ChildSum(tasks, childIds, height, h, parent, n) >= HrTotal(tasks, childIds, height, h, tasks[c])
    decreases height[parent], 0, n
  {
    if n > 0 {
      ChildSumBoundsParts(tasks, childIds, height, h, parent, n - 1);
      var c := childIds[parent.id][n - 1];
      assert childIds[parent.id][..n] == childIds[parent.id][..n - 1] + [c];
      if c in tasks {
        assert NonNegative(tasks, tasks[c]);
        TotalBoundsParts(tasks, childIds, height, h, tasks[c]);
      }
    }
  }

  /** Child ids with no task behind them contribute nothing to a total. */
  lemma {:induction false} MissingChildrenAddNothing(tasks: map<int, Task>, childIds: map<int, seq<int>>, height: map<Task, nat>, h: Hours, parent: Task, n: nat)
    requires HeightRanked(tasks, childIds, height) && Above(tasks, childIds, height, parent)
    requires parent.id in childIds && n <= |childIds[parent.id]|
    requires forall i :: 0 <= i < n ==> childIds[parent.id][i] !in tasks
    ensures ChildSum(tasks, childIds, height, h, parent, n) == 0.0
  {
    if n > 0 {
      MissingChildrenAddNothing(tasks, childIds, height, h, parent, n - 1);
    }
  }

  /** `done`: some completed hours in the subtree and none remaining. */
  function Done(tasks: map<int, Task>, childIds: map<int, seq<int>>, ghost height: map<Task, nat>, t: Task): (r: bool)
    reads t`id, t`hrCompleted, t`hrRemaining, t`hrEstimatedOrig
    reads tasks.Values`id, tasks.Values`hrCompleted, tasks.Values`hrRemaining, tasks.Values`hrEstimatedOrig
    requires HeightRanked(tasks, childIds, height) && Above(tasks, childIds, height, t)
    ensures r <==> HrTotal(tasks, childIds, height, Completed, t) > 0.0 && HrTotal(tasks, childIds, height, Remaining, t) == 0.0
  {
    HrTotal(tasks, childIds, height, Completed, t) > 0.0 && HrTotal(tasks, childIds, height, Remaining, t) == 0.0
  }

  /**
   * With no negative hours, a done task has no indexed child with remaining
   * hours, and is done only if it has none remaining itself.
   */
  lemma DoneMeansNothingRemains(tasks: map<int, Task>, childIds: map<int, seq<int>>, height: map<Task, nat>, t: Task)
    requires HeightRanked(tasks, childIds, height) && Above(tasks, childIds, height, t)
    requires NonNegative(tasks, t)
    requires Done(tasks, childIds, height, t)
    ensures t.hrRemaining == 0.0
    ensures t.id in childIds ==>
      forall c :: c in childIds[t.id] && c in tasks ==> HrTotal(tasks, childIds, height, Remaining, tasks[c]) == 0.0
  {
    TotalBoundsParts(tasks, childIds, height, Remaining, t);
    if t.id in childIds {
      forall c | c in childIds[t.id] && c in tasks
        ensures HrTotal(tasks, childIds, height, Remaining, tasks[c]) == 0.0
      {
        assert NonNegative(tasks, tasks[c]);
        TotalBoundsParts(tasks, childIds, height, Remaining, tasks[c]);
      }
    }
  }

  /** `isParent`: the task has a non-empty child set (an emptied set still exists). */
  function IsParent(childIds: map<int, seq<int>>, t: Task): (r: bool)
    reads t`id
    ensures r <==> t.id in childIds && exists c :: c in childIds[t.id]
  {
    if t.id in childIds && |childIds[t.id]| > 0 then
      var first := childIds[t.id][0];
      assert first in childIds[t.id];
      true
    else false
  }

  // ---------------------------------------------------------------------------
  // Visibility and ancestors
  // ---------------------------------------------------------------------------

  /** The indexed parent of `t`, if any, ranks strictly below `t`. */
  ghost predicate Below(tasks: map<int, Task>, depth: map<Task, nat>, t: Task)
    reads t`parentId
  {
    && t in depth
    && (t.parentId.Some? && t.parentId.value in tasks ==>
          tasks[t.parentId.value] in depth && depth[tasks[t.parentId.value]] < depth[t])
  }

  /** The parent links among indexed tasks are acyclic, as witnessed by `depth`. */
  ghost predicate DepthRanked(tasks: map<int, Task>, depth: map<Task, nat>)
    reads tasks.Values`parentId
  {
    forall k :: k in tasks ==> Below(tasks, depth, tasks[k])
  }

  /** How far a walk up from parent id `pid` can go. */
  ghost function Reach(tasks: map<int, Task>, depth: map<Task, nat>, pid: Option<int>): nat
    reads tasks.Values`parentId
    requires DepthRanked(tasks, depth)
  {
    match pid
    case None => 0
    case Some(p) => if p in tasks then depth[tasks[p]] + 1 else 0
  }

  /**
   * `visible`: a cleared or trashed task is hidden; otherwise a root, or a task
   * whose parent id has no task, is shown; otherwise it is hidden when the parent
   * hides its children, and else it is exactly as visible as the parent.
   */
  function Visible(tasks: map<int, Task>, ghost depth: map<Task, nat>, t: Task): (r: bool)
    reads t`clear, t`trashed, t`parentId
    reads tasks.Values`clear, tasks.Values`trashed, tasks.Values`parentId, tasks.Values`hideChildren
    requires DepthRanked(tasks, depth) && Below(tasks, depth, t)
    ensures r ==> !t.clear && !t.trashed
    decreases depth[t]
  {
    if t.clear || t.trashed then false
    else match t.parentId
      case None => true
      case Some(p) =>
        if p !in tasks then true
        else if tasks[p].hideChildren then false
        else Visible(tasks, depth, tasks[p])
  }

  /**
   * The chain of indexed ancestors above parent id `pid`, root first, as
   * `ancestorTasks` returns it: the walk stops at a root or at the first parent
   * id that has no task.
   */
  function Ancestors(tasks: map<int, Task>, ghost depth: map<Task, nat>, pid: Option<int>): (r: seq<Task>)
    reads tasks.Values`parentId
    requires DepthRanked(tasks, depth)
    ensures |r| <= Reach(tasks, depth, pid)
    decreases Reach(tasks, depth, pid)
  {
    match pid
    case None => []
    case Some(p) =>
      if p !in tasks then [] else Ancestors(tasks, depth, tasks[p].parentId) + [tasks[p]]
  }

  /**
   * The ancestor chain consists of indexed tasks, ends with the task under `pid`,
   * starts at a task whose own parent is absent or unknown, and each element is
   * the indexed parent of the next.
   */
  lemma {:induction false} AncestorsChain(tasks: map<int, Task>, depth: map<Task, nat>, pid: Option<int>)
    requires DepthRanked(tasks, depth)
    ensures var r := Ancestors(tasks, depth, pid);
      && (forall i :: 0 <= i < |r| ==> r[i] in tasks.Values)
      && (r != [] <==> pid.Some? && pid.value in tasks)
      && (r != [] ==> r[|r| - 1] == tasks[pid.value])
      && (r != [] ==> r[0].parentId.None? || r[0].parentId.value !in tasks)
      && (forall i :: 0 < i < |r| ==>
            r[i].parentId.Some? && r[i].parentId.value in tasks && tasks[r[i].parentId.value] == r[i - 1])
    decreases Reach(tasks, depth, pid)
  {
    match pid
    case None =>
    case Some(p) =>
      if p in tasks {
        AncestorsChain(tasks, depth, tasks[p].parentId);
        var up := Ancestors(tasks, depth, tasks[p].parentId);
        var r := up + [tasks[p]];
        assert Ancestors(tasks, depth, pid) == r;
        if up != [] {
          assert r[|up| - 1] == up[|up| - 1] == tasks[tasks[p].parentId.value];
        }
      }
  }

  /**
   * A task is visible exactly when neither it nor any of its ancestors is
   * cleared or trashed and no ancestor hides its children.
   */
  lemma {:induction false} VisibleIffChainShown(tasks: map<int, Task>, depth: map<Task, nat>, t: Task)
    requires DepthRanked(tasks, depth) && Below(tasks, depth, t)
    ensures Visible(tasks, depth, t) <==>
      && !t.clear && !t.trashed
      && forall a :: a in Ancestors(tasks, depth, t.parentId) ==> !a.clear && !a.trashed && !a.hideChildren
    decreases depth[t]
  {
    match t.parentId
    case None =>
    case Some(p) =>
      if p in tasks {
        VisibleIffChainShown(tasks, depth, tasks[p]);
        assert Ancestors(tasks, depth, t.parentId) == Ancestors(tasks, depth, tasks[p].parentId) + [tasks[p]];
      }
  }

  /**
   * A visible task's indexed parent is itself visible and does not hide its
   * children.
   */
  lemma VisibleParent(tasks: map<int, Task>, depth: map<Task, nat>, t: Task)
    requires DepthRanked(tasks, depth) && Below(tasks, depth, t)
    requires Visible(tasks, depth, t) && t.parentId.Some? && t.parentId.value in tasks
    ensures !tasks[t.parentId.value].hideChildren && Visible(tasks, depth, tasks[t.parentId.value])
  {
  }

  /** `toReversed()` */
  function Reversed<T>(s: seq<T>): (r: seq<T>)
    ensures |r| == |s| && forall i :: 0 <= i < |s| ==> r[i] == s[|s| - 1 - i]
  {
    if s == [] then [] else [s[|s| - 1]] + Reversed(s[..|s| - 1])
  }

  /**
   * `ancestorTasks`: collects the chain nearest-first by following parent ids
   * until a root or an id with no task, then reverses it.
   */
  method AncestorTasks(tasks: map<int, Task>, ghost depth: map<Task, nat>, t: Task) returns (r: seq<Task>)
    requires DepthRanked(tasks, depth)
    ensures r == Ancestors(tasks, depth, t.parentId)
  {
    var ancestors: seq<Task> := [];
    var currentId := t.parentId;
    while currentId.Some?
      invariant Ancestors(tasks, depth, t.parentId) == Ancestors(tasks, depth, currentId) + Reversed(ancestors)
      decreases Reach(tasks, depth, currentId)
    {
      if currentId.value !in tasks {
        break;
      }
      var currentTask := tasks[currentId.value];
      assert Reversed(ancestors + [currentTask]) == [currentTask] + Reversed(ancestors) by {
        assert (ancestors + [currentTask])[..|ancestors|] == ancestors;
      }
      ancestors := ancestors + [currentTask];
      currentId := currentTask.parentId;
    }
    r := Reversed(ancestors);
  }

  // ---------------------------------------------------------------------------
  // The re-indexing effect
  // ---------------------------------------------------------------------------

  /** The two maps a task's effect writes to. */
  datatype Index = Index(tasks: map<int, Task>, childIds: map<int, seq<int>>)

  /**
   * The index maps after a task's effect re-files it under `(id, parentId)`: the
   * entry under the remembered id is deleted and the task is unlinked from the
   * remembered parent (when the effect has run before), then the task is stored
   * under its id and linked to its parent. The caller skips the effect entirely
   * when the remembered pair equals the current one.
   */
  function Refiled(tasks: map<int, Task>, childIds: map<int, seq<int>>, t: Task, id: int, parentId: Option<int>, last: Option<Filing>)
    : (r: Index)
    ensures id in r.tasks && r.tasks[id] == t
    ensures forall k :: k in r.tasks && k != id ==> k in tasks && r.tasks[k] == tasks[k] && (last.Some? ==> k != last.value.id)
    ensures forall k :: k in tasks && k != id && (last.None? || k != last.value.id) ==> k in r.tasks
    ensures parentId.Some? ==> parentId.value in r.childIds && id in r.childIds[parentId.value]
    ensures last.Some? && last.value.parentId.Some? && last.value.parentId.value in childIds && last.value != Filing(id, parentId)
      ==> last.value.parentId.value in r.childIds && last.value.id !in r.childIds[last.value.parentId.value]
    ensures forall p :: p in childIds && Some(p) != parentId && (last.None? || Some(p) != last.value.parentId) ==>
      p in r.childIds && r.childIds[p] == childIds[p]
    ensures WellFormed(childIds) ==> WellFormed(r.childIds)
  {
    var tasks1 := if last.Some? then tasks - {last.value.id} else tasks;
    var childIds1 := if last.Some? then Unlink(childIds, last.value.id, last.value.parentId) else childIds;
    Index(tasks1[id := t], Link(childIds1, id, parentId))
  }

  /**
   * Re-filing keeps every key equal to its task's id, when the only entry that
   * broke that was the stale one under the remembered id.
   */
  lemma RefiledKeysMatch(tasks: map<int, Task>, childIds: map<int, seq<int>>, t: Task, last: Option<Filing>)
    requires forall k :: k in tasks && tasks[k].id != k ==> last.Some? && k == last.value.id
    ensures var r := Refiled(tasks, childIds, t, t.id, t.parentId, last);
      forall k :: k in r.tasks ==> r.tasks[k].id == k
  {
  }

  /**
   * Re-filing leaves every stored task linked to its parent's child set, when
   * every entry other than the ones under the task's new and remembered ids was
   * linked before: the stale entry is gone and the task itself is linked anew.
   */
  lemma RefiledLinked(tasks: map<int, Task>, childIds: map<int, seq<int>>, t: Task, last: Option<Filing>)
    requires forall k :: k in tasks && k != t.id && (last.None? || k != last.value.id) ==> LinkedAt(childIds, k, tasks[k].parentId)
    ensures var r := Refiled(tasks, childIds, t, t.id, t.parentId, last);
      forall k :: k in r.tasks ==> LinkedAt(r.childIds, k, r.tasks[k].parentId)
  {
  }
}
