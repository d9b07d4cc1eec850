/**
 * `useTasks` (src/lib/composables/useTasks.svelte.ts): the oldest client task
 * index. Reactive tasks are closure records; the composable owns the index maps,
 * one long-lived layout graph that setters and link/unlink edit in place, and a
 * relayout pass that is queued at most once at a time.
 *
 * Position animation (`usePos`, `useTaskAnimation`) is not modelled: a task's
 * position is the target the pass assigns. The `tick()` callback is the method
 * `RunPass`, invoked by the caller while a pass is queued.
 */
module UseTasks {
  import opened Options
  import opened OrderedSets
  import opened ChildIndex
  import opened Layout
  import opened Flow

  /** One row of a task's hour history. */
  datatype HourEntry = HourEntry(createdAt: int, hrCompleted: real, hrRemaining: real)

  /** The server's task record this index builds tasks from. */
  datatype ApiTask = ApiTask(
    id: int, title: string, priority: Option<int>, parentId: Option<int>,
    hideChildren: bool, alwaysExpanded: bool, clear: bool, trashed: bool,
    hoursHistory: seq<HourEntry>)

  class ReactiveTask {
    var id: int
    var title: string
    var priority: Option<int>
    var parentId: Option<int>
    var hideChildren: bool
    /** Copied into the record at creation; nothing derived reads a later assignment. */
    const alwaysExpanded: bool
    /** Fixed at creation: `visible` reads the closure variable, which has no setter. */
    const clear: bool
    var trashed: bool
    var hoursHistory: seq<HourEntry>
    var elHeight: real
    /** `pos.target` */
    var posTarget: Point

    predicate Mirrors(base: ApiTask)
      reads this
    {
      && id == base.id && title == base.title && priority == base.priority
      && parentId == base.parentId && hideChildren == base.hideChildren
      && alwaysExpanded == base.alwaysExpanded && clear == base.clear && trashed == base.trashed
      && hoursHistory == base.hoursHistory
    }

    /** `createReactiveTask(baseTask)`: the record's fields; no height measured yet, target at the origin. */
    constructor (base: ApiTask)
      ensures Mirrors(base) && elHeight == 0.0 && posTarget == Point(0.0, 0.0)
    {
      id := base.id;
      title := base.title;
      priority := base.priority;
      parentId := base.parentId;
      hideChildren := base.hideChildren;
      alwaysExpanded := base.alwaysExpanded;
      clear := base.clear;
      trashed := base.trashed;
      hoursHistory := base.hoursHistory;
      elHeight := 0.0;
      posTarget := Point(0.0, 0.0);
    }
  }

  // ---------------------------------------------------------------------------
  // Hour fields
  // ---------------------------------------------------------------------------

  datatype Hours = Completed | Remaining | EstimateOriginal

  /**
   * A task's own contribution: the latest history row's value (0 with no
   * history) for completed and remaining hours; the first row's completed plus
   * remaining for the original estimate, which fails (`None`) on an empty
   * history because the source reads `hoursHistory[0]` unguarded.
   */
  function Own(t: ReactiveTask, h: Hours): (r: Option<real>)
    reads t`hoursHistory
    ensures r.None? <==> h == EstimateOriginal && |t.hoursHistory| == 0
  {
    var hist := t.hoursHistory;
    match h
    case Completed => Some(if |hist| > 0 then hist[|hist| - 1].hrCompleted else 0.0)
    case Remaining => Some(if |hist| > 0 then hist[|hist| - 1].hrRemaining else 0.0)
    case EstimateOriginal => if |hist| == 0 then None else Some(hist[0].hrCompleted + hist[0].hrRemaining)
  }

  /** Every indexed child of `t` ranks strictly below `t`. */
  ghost predicate Above(tasks: map<int, ReactiveTask>, childIds: map<int, seq<int>>, height: map<ReactiveTask, nat>, t: ReactiveTask)
    reads t`id
  {
    && t in height
    && (t.id in childIds ==>
          forall c :: c in childIds[t.id] && c in tasks ==> tasks[c] in height && height[tasks[c]] < height[t])
  }

  ghost predicate HeightRanked(tasks: map<int, ReactiveTask>, childIds: map<int, seq<int>>, height: map<ReactiveTask, nat>)
    reads tasks.Values`id
  {
    forall k :: k in tasks ==> Above(tasks, childIds, height, tasks[k])
  }

  /**
   * `hrCompleted`, `hrRemaining`, `hrEstimateOriginal`: the own contribution plus
   * the children's values, a missing child counting 0; `None` when some reached
   * task fails.
   */
  function HrTotal(tasks: map<int, ReactiveTask>, childIds: map<int, seq<int>>, ghost height: map<ReactiveTask, nat>, h: Hours, t: ReactiveTask): (r: Option<real>)
    reads t`id, t`hoursHistory, tasks.Values`id, tasks.Values`hoursHistory
    requires HeightRanked(tasks, childIds, height) && Above(tasks, childIds, height, t)
    ensures Own(t, h).None? ==> r.None?
    ensures t.id !in childIds ==> r == Own(t, h)
    decreases height[t], 1
  {
    var own := Own(t, h);
    var children := if t.id in childIds then ChildSum(tasks, childIds, height, h, t, |childIds[t.id]|) else Some(0.0);
    if own.None? || children.None? then None else Some(own.value + children.value)
  }

  /** The left fold over the first `n` child ids of `parent`. */
  function ChildSum(tasks: map<int, ReactiveTask>, childIds: map<int, seq<int>>, ghost height: map<ReactiveTask, nat>, h: Hours, parent: ReactiveTask, n: nat): (r: Option<real>)
    reads parent`id, tasks.Values`id, tasks.Values`hoursHistory
    requires HeightRanked(tasks, childIds, height) && Above(tasks, childIds, height, parent)
    requires parent.id in childIds && n <= |childIds[parent.id]|
    ensures n == 0 ==> r == Some(0.0)
    decreases height[parent], 0, n
  {
    if n == 0 then Some(0.0)
    else
      var c := childIds[parent.id][n - 1];
      var before := ChildSum(tasks, childIds, height, h, parent, n - 1);
      var here := if c in tasks then HrTotal(tasks, childIds, height, h, tasks[c]) else Some(0.0);
      if before.None? || here.None? then None else Some(before.value + here.value)
  }

  /** Completed and remaining totals never fail. */
  lemma {:induction false} LatestTotalsDefined(tasks: map<int, ReactiveTask>, childIds: map<int, seq<int>>, height: map<ReactiveTask, nat>, h: Hours, t: ReactiveTask)
    requires HeightRanked(tasks, childIds, height) && Above(tasks, childIds, height, t)
    requires h != EstimateOriginal
    ensures HrTotal(tasks, childIds, height, h, t).Some?
    decreases height[t], 1
  {
    if t.id in childIds {
      LatestChildSumDefined(tasks, childIds, height, h, t, |childIds[t.id]|);
    }
  }

  lemma {:induction false} LatestChildSumDefined(tasks: map<int, ReactiveTask>, childIds: map<int, seq<int>>, height: map<ReactiveTask, nat>, h: Hours, parent: ReactiveTask, n: nat)
    requires HeightRanked(tasks, childIds, height) && Above(tasks, childIds, height, parent)
    requires parent.id in childIds && n <= |childIds[parent.id]|
    requires h != EstimateOriginal
    ensures ChildSum(tasks, childIds, height, h, parent, n).Some?
    decreases height[parent], 0, n
  {
    if n > 0 {
      LatestChildSumDefined(tasks, childIds, height, h, parent, n - 1);
      var c := childIds[parent.id][n - 1];
      if c in tasks {
        LatestTotalsDefined(tasks, childIds, height, h, tasks[c]);
      }
    }
  }

  /** The original estimate is defined when every history involved is non-empty. */
  lemma {:induction false} EstimateDefined(tasks: map<int, ReactiveTask>, childIds: map<int, seq<int>>, height: map<ReactiveTask, nat>, t: ReactiveTask)
    requires HeightRanked(tasks, childIds, height) && Above(tasks, childIds, height, t)
    requires |t.hoursHistory| > 0 && forall k :: k in tasks ==> |tasks[k].hoursHistory| > 0
    ensures HrTotal(tasks, childIds, height, EstimateOriginal, t).Some?
    decreases height[t], 1
  {
    if t.id in childIds {
      EstimateChildSumDefined(tasks, childIds, height, t, |childIds[t.id]|);
    }
  }

  lemma {:induction false} EstimateChildSumDefined(tasks: map<int, ReactiveTask>, childIds: map<int, seq<int>>, height: map<ReactiveTask, nat>, parent: ReactiveTask, n: nat)
    requires HeightRanked(tasks, childIds, height) && Above(tasks, childIds, height, parent)
    requires parent.id in childIds && n <= |childIds[parent.id]|
    requires forall k :: k in tasks ==> |tasks[k].hoursHistory| > 0
    ensures ChildSum(tasks, childIds, height, EstimateOriginal, parent, n).Some?
    decreases height[parent], 0, n
  {
    if n > 0 {
      EstimateChildSumDefined(tasks, childIds, height, parent, n - 1);
      var c := childIds[parent.id][n - 1];
      if c in tasks {
        EstimateDefined(tasks, childIds, height, tasks[c]);
      }
    }
  }

  // ---------------------------------------------------------------------------
  // Visibility
  // ---------------------------------------------------------------------------

  ghost predicate Below(tasks: map<int, ReactiveTask>, depth: map<ReactiveTask, nat>, t: ReactiveTask)
    reads t`parentId
  {
    && t in depth
    && (t.parentId.Some? && t.parentId.value in tasks ==>
          tasks[t.parentId.value] in depth && depth[tasks[t.parentId.value]] < depth[t])
  }

  ghost predicate DepthRanked(tasks: map<int, ReactiveTask>, depth: map<ReactiveTask, nat>)
    reads tasks.Values`parentId
  {
    forall t :: t in tasks.Values ==> Below(tasks, depth, t)
  }

  /**
   * `visible`, which tests the root case first: a root is shown even when it is
   * cleared or trashed; otherwise a cleared or trashed task is hidden, a task
   * whose parent id has no task is shown, a task whose parent hides its children
   * is hidden, and else it is as visible as its parent.
   */
  function Visible(tasks: map<int, ReactiveTask>, ghost depth: map<ReactiveTask, nat>, t: ReactiveTask): (r: bool)
    reads t`parentId, t`trashed, tasks.Values`parentId, tasks.Values`trashed, tasks.Values`hideChildren
    requires DepthRanked(tasks, depth) && Below(tasks, depth, t)
    decreases depth[t]
  {
    match t.parentId
    case None => true
    case Some(p) =>
      if t.clear || t.trashed then false
      else if p !in tasks then true
      else if tasks[p].hideChildren then false
      else Visible(tasks, depth, tasks[p])
  }

  /** A root is always shown, even when cleared or trashed; a shown non-root task is neither. */
  lemma VisibleRootsAndShown(tasks: map<int, ReactiveTask>, depth: map<ReactiveTask, nat>, t: ReactiveTask)
    requires DepthRanked(tasks, depth) && Below(tasks, depth, t)
    ensures t.parentId.None? ==> Visible(tasks, depth, t)
    ensures Visible(tasks, depth, t) && t.parentId.Some? ==> !t.clear && !t.trashed
  {
  }

  /** How far a walk up from parent id `pid` can go. */
  ghost function Reach(tasks: map<int, ReactiveTask>, depth: map<ReactiveTask, nat>, pid: Option<int>): nat
    reads tasks.Values`parentId
    requires DepthRanked(tasks, depth)
  {
    match pid
    case None => 0
    case Some(p) => if p in tasks then depth[tasks[p]] + 1 else 0
  }

  /** The indexed ancestors above parent id `pid`, root first. */
  ghost function Ancestors(tasks: map<int, ReactiveTask>, depth: map<ReactiveTask, nat>, pid: Option<int>): (r: seq<ReactiveTask>)
    reads tasks.Values`parentId
    requires DepthRanked(tasks, depth)
    ensures forall a :: a in r ==> a in tasks.Values
    decreases Reach(tasks, depth, pid)
  {
    match pid
    case None => []
    case Some(p) => if p !in tasks then [] else Ancestors(tasks, depth, tasks[p].parentId) + [tasks[p]]
  }

  /**
   * A task is visible exactly when it and each of its ancestors is a root or
   * neither cleared nor trashed, and no ancestor hides its children.
   */
  lemma {:induction false} VisibleIffChainShown(tasks: map<int, ReactiveTask>, depth: map<ReactiveTask, nat>, t: ReactiveTask)
    requires DepthRanked(tasks, depth) && Below(tasks, depth, t)
    ensures Visible(tasks, depth, t) <==>
      forall a :: a in Ancestors(tasks, depth, t.parentId) + [t] ==>
        (a.parentId.Some? ==> !a.clear && !a.trashed) && (a != t ==> !a.hideChildren)
    decreases depth[t]
  {
    var chain := Ancestors(tasks, depth, t.parentId) + [t];
    match t.parentId
    case None =>
      assert chain == [t];
    case Some(p) =>
      if p in tasks {
        var parent := tasks[p];
        VisibleIffChainShown(tasks, depth, parent);
        var up := Ancestors(tasks, depth, parent.parentId);
        assert chain == up + [parent] + [t];
        assert t !in up + [parent] by {
          AncestorsRankBelow(tasks, depth, t.parentId);
        }
      } else {
        assert chain == [t];
      }
  }

  /** Every ancestor ranks below the tasks beneath it. */
  lemma {:induction false} AncestorsRankBelow(tasks: map<int, ReactiveTask>, depth: map<ReactiveTask, nat>, pid: Option<int>)
    requires DepthRanked(tasks, depth)
    ensures forall a :: a in Ancestors(tasks, depth, pid) ==> a in depth && depth[a] < Reach(tasks, depth, pid)
    decreases Reach(tasks, depth, pid)
  {
    match pid
    case None =>
    case Some(p) =>
      if p in tasks {
        assert tasks[p] in tasks.Values;
        AncestorsRankBelow(tasks, depth, tasks[p].parentId);
      }
  }

  // ---------------------------------------------------------------------------
  // The composable
  // ---------------------------------------------------------------------------

  /** Which entries share an id: the pass needs each task's id to be its own. */
  ghost predicate DistinctIds(tasks: map<int, ReactiveTask>)
    reads tasks.Values`id
  {
    forall k1, k2 :: k1 in tasks && k2 in tasks && tasks[k1].id == tasks[k2].id ==> tasks[k1] == tasks[k2]
  }

  /** The edge loop's verdict on pair (p, c): it reads `tasks.get(c)!.visible` and then `tasks.get(p)!.visible`. */
  ghost predicate Throws(tasks: map<int, ReactiveTask>, depth: map<ReactiveTask, nat>, p: int, c: int)
    reads tasks.Values`parentId, tasks.Values`trashed, tasks.Values`hideChildren
    requires DepthRanked(tasks, depth)
  {
    c !in tasks || (Visible(tasks, depth, tasks[c]) && p !in tasks)
  }

  /** The edge (p, c) belongs in the layout graph: both ends are indexed and visible. */
  ghost predicate Shown(tasks: map<int, ReactiveTask>, depth: map<ReactiveTask, nat>, p: int, c: int)
    reads tasks.Values`parentId, tasks.Values`trashed, tasks.Values`hideChildren
    requires DepthRanked(tasks, depth)
  {
    c in tasks && p in tasks && Visible(tasks, depth, tasks[c]) && Visible(tasks, depth, tasks[p])
  }

  /** The layout node of `t` is as the pass leaves it: present with `t`'s size when `t` is visible, absent otherwise. */
  ghost predicate NodeSynced(tasks: map<int, ReactiveTask>, depth: map<ReactiveTask, nat>, nodes: map<int, Size>, t: ReactiveTask)
    reads t`id, t`elHeight, tasks.Values`parentId, tasks.Values`trashed, tasks.Values`hideChildren
    requires DepthRanked(tasks, depth) && t in tasks.Values
  {
    if Visible(tasks, depth, t) then t.id in nodes && nodes[t.id] == Size(NodeWidth, t.elHeight) else t.id !in nodes
  }

  ghost function TaskIds(tasks: map<int, ReactiveTask>): set<int>
    reads tasks.Values`id
  {
    set t | t in tasks.Values :: t.id
  }

  ghost predicate SameNode(before: map<int, Size>, after: map<int, Size>, id: int) {
    (id in before <==> id in after) && (id in after ==> before[id] == after[id])
  }

  /**
   * The node loop's progress: every collected task is indexed and visible, and
   * each task under a visited key is collected when visible and has its node synced.
   */
  ghost predicate NodesSyncedFor(tasks: map<int, ReactiveTask>, depth: map<ReactiveTask, nat>, nodes: map<int, Size>, shown: seq<ReactiveTask>, done: set<int>)
    reads tasks.Values`id, tasks.Values`elHeight, tasks.Values`parentId, tasks.Values`trashed, tasks.Values`hideChildren
    requires DepthRanked(tasks, depth)
  {
    && (forall t :: t in shown ==> t in tasks.Values && Visible(tasks, depth, t))
    && (forall k :: k in done && k in tasks ==>
         (Visible(tasks, depth, tasks[k]) ==> tasks[k] in shown) && NodeSynced(tasks, depth, nodes, tasks[k]))
  }

  /**
   * Syncing the node of the task under key `k` extends the progress to `k`, and
   * keeps every earlier node synced, since no other task carries its id.
   */
  lemma NodeStepKeepsOthers(tasks: map<int, ReactiveTask>, depth: map<ReactiveTask, nat>, before: map<int, Size>, after: map<int, Size>, shown: seq<ReactiveTask>, k: int, done: set<int>)
    requires DepthRanked(tasks, depth) && DistinctIds(tasks) && k in tasks
    requires forall id :: id != tasks[k].id ==> SameNode(before, after, id)
    requires NodeSynced(tasks, depth, after, tasks[k])
    requires NodesSyncedFor(tasks, depth, before, shown, done)
    ensures NodesSyncedFor(tasks, depth, after, if Visible(tasks, depth, tasks[k]) then shown + [tasks[k]] else shown, done + {k})
  {
    var t := tasks[k];
    var shown' := if Visible(tasks, depth, t) then shown + [t] else shown;
    forall j | j in done + {k} && j in tasks
      ensures (Visible(tasks, depth, tasks[j]) ==> tasks[j] in shown') && NodeSynced(tasks, depth, after, tasks[j])
    {
      if tasks[j] != t {
        assert tasks[j].id != t.id;
        assert SameNode(before, after, tasks[j].id);
      }
    }
  }

  ghost predicate Listed(childIds: map<int, seq<int>>, p: int, c: int) {
    p in childIds && c in childIds[p]
  }

  class UseTasks {
    var tasks: map<int, ReactiveTask>
    var parentsToChildIds: map<int, seq<int>>
    /** The long-lived layout graph. */
    var layoutNodes: map<int, Size>
    var layoutEdges: set<(int, int)>
    var relayoutQueued: bool

    ghost predicate Valid()
      reads this
    {
      WellFormed(parentsToChildIds)
    }

    /**
     * Every stored task whose parent id is set is listed in that parent's child
     * set; `delTask` breaks this for the children of the deleted task, whose
     * child set it drops.
     */
    ghost predicate Linked()
      reads this, tasks.Values`parentId
    {
      forall k :: k in tasks ==> LinkedAt(parentsToChildIds, k, tasks[k].parentId)
    }

    /** `t` is stored under its own id and under no other key. */
    ghost predicate FiledUnderId(t: ReactiveTask)
      reads this, t
    {
      forall k :: k in tasks ==> (tasks[k] == t <==> k == t.id)
    }

    constructor ()
      ensures Valid() && Linked() && tasks == map[] && parentsToChildIds == map[]
      ensures layoutNodes == map[] && layoutEdges == {} && !relayoutQueued
    {
      tasks := map[];
      parentsToChildIds := map[];
      layoutNodes := map[];
      layoutEdges := {};
      relayoutQueued := false;
    }

    /** `updateNodePositions()`: queues a pass unless one is queued already. */
    method RequestPass()
      modifies this`relayoutQueued
      ensures relayoutQueued
    {
      if relayoutQueued {
        return;
      }
      relayoutQueued := true;
    }

    /** `unlinkFromParent`: also drops the layout edge, even when the parent has no child set. */
    method UnlinkFromParent(childId: int, parentId: Option<int>)
      requires Valid()
      modifies this`parentsToChildIds, this`layoutEdges
      ensures Valid()
      ensures parentsToChildIds == Unlink(old(parentsToChildIds), childId, parentId)
      ensures layoutEdges == if parentId.None? then old(layoutEdges) else old(layoutEdges) - {(parentId.value, childId)}
    {
      if parentId.None? {
        return;
      }
      parentsToChildIds := Unlink(parentsToChildIds, childId, parentId);
      layoutEdges := layoutEdges - {(parentId.value, childId)};
    }

    /** `linkToParent`: also adds the layout edge. */
    method LinkToParent(childId: int, parentId: Option<int>)
      requires Valid()
      modifies this`parentsToChildIds, this`layoutEdges
      ensures Valid()
      ensures parentsToChildIds == Link(old(parentsToChildIds), childId, parentId)
      ensures layoutEdges == if parentId.None? then old(layoutEdges) else old(layoutEdges) + {(parentId.value, childId)}
    {
      if parentId.None? {
        return;
      }
      parentsToChildIds := Link(parentsToChildIds, childId, parentId);
      layoutEdges := layoutEdges + {(parentId.value, childId)};
    }

    /** `addTask(baseTask)`: stores the new task under its id and links it. */
    method AddTask(base: ApiTask) returns (t: ReactiveTask)
      requires Valid()
      modifies this`tasks, this`parentsToChildIds, this`layoutEdges
      ensures Valid()
      ensures fresh(t) && t.Mirrors(base) && t.elHeight == 0.0
      ensures tasks == old(tasks)[base.id := t]
      ensures parentsToChildIds == Link(old(parentsToChildIds), base.id, base.parentId)
      ensures layoutEdges == if base.parentId.None? then old(layoutEdges) else old(layoutEdges) + {(base.parentId.value, base.id)}
      ensures old(Linked()) ==> Linked()
    {
      t := new ReactiveTask(base);
      tasks := tasks[t.id := t];
      LinkToParent(t.id, t.parentId);
      if old(Linked()) {
        forall k | k in tasks
          ensures LinkedAt(parentsToChildIds, k, tasks[k].parentId)
        {
          LinkKeepsLinked(old(parentsToChildIds), t.id, t.parentId, k, tasks[k].parentId);
        }
      }
    }

    /** `getTask(id)` */
    function GetTask(id: int): (r: Option<ReactiveTask>)
      reads this
      ensures r.Some? <==> id in tasks
      ensures r.Some? ==> r.value == tasks[id]
    {
      if id in tasks then Some(tasks[id]) else None
    }

    /** `delTask(task)`: unlinks, drops the entry, its child set and its node, and requests a pass. */
    method DelTask(t: ReactiveTask)
      requires Valid()
      modifies this`tasks, this`parentsToChildIds, this`layoutEdges, this`layoutNodes, this`relayoutQueued
      ensures Valid() && relayoutQueued
      ensures tasks == old(tasks) - {t.id}
      ensures parentsToChildIds == Unlink(old(parentsToChildIds), t.id, t.parentId) - {t.id}
      ensures layoutEdges == if t.parentId.None? then old(layoutEdges) else old(layoutEdges) - {(t.parentId.value, t.id)}
      ensures layoutNodes == old(layoutNodes) - {t.id}
      ensures old(Linked()) ==>
        forall k :: k in tasks && tasks[k].parentId != Some(t.id) ==> LinkedAt(parentsToChildIds, k, tasks[k].parentId)
      ensures forall k :: k in tasks && tasks[k].parentId == Some(t.id) ==> !LinkedAt(parentsToChildIds, k, tasks[k].parentId)
    {
      UnlinkFromParent(t.id, t.parentId);
      tasks := tasks - {t.id};
      parentsToChildIds := parentsToChildIds - {t.id};
      layoutNodes := layoutNodes - {t.id};
      RequestPass();
      if old(Linked()) {
        forall k | k in tasks && tasks[k].parentId != Some(t.id)
          ensures LinkedAt(parentsToChildIds, k, tasks[k].parentId)
        {
          var q := tasks[k].parentId;
          UnlinkKeepsLinked(old(parentsToChildIds), t.id, t.parentId, k, q);
          DropKeepsLinked(Unlink(old(parentsToChildIds), t.id, t.parentId), t.id, k, q);
        }
      }
    }

    /**
     * The `parentId` setter: nothing for an equal value; otherwise unlink from
     * the old parent, assign, link to the new one, and request a pass.
     */
    method SetParentId(t: ReactiveTask, newParentId: Option<int>)
      requires Valid()
      modifies t`parentId, this`parentsToChildIds, this`layoutEdges, this`relayoutQueued
      ensures Valid()
      ensures old(t.parentId) == newParentId ==>
        && t.parentId == newParentId && parentsToChildIds == old(parentsToChildIds)
        && layoutEdges == old(layoutEdges) && relayoutQueued == old(relayoutQueued)
      ensures old(t.parentId) != newParentId ==>
        && t.parentId == newParentId && relayoutQueued
        && parentsToChildIds == Link(Unlink(old(parentsToChildIds), t.id, old(t.parentId)), t.id, newParentId)
        && layoutEdges ==
             (if old(t.parentId).Some? then old(layoutEdges) - {(old(t.parentId).value, t.id)} else old(layoutEdges))
             + (if newParentId.Some? then {(newParentId.value, t.id)} else {})
      ensures old(Linked()) && FiledUnderId(t) ==> Linked()
    {
      if t.parentId == newParentId {
        return;
      }
      UnlinkFromParent(t.id, t.parentId);
      t.parentId := newParentId;
      LinkToParent(t.id, t.parentId);
      RequestPass();
      if old(Linked()) && FiledUnderId(t) {
        var unlinked := Unlink(old(parentsToChildIds), t.id, old(t.parentId));
        forall k | k in tasks
          ensures LinkedAt(parentsToChildIds, k, tasks[k].parentId)
        {
          if k != t.id {
            var q := tasks[k].parentId;
            UnlinkKeepsLinked(old(parentsToChildIds), t.id, old(t.parentId), k, q);
            LinkKeepsLinked(unlinked, t.id, newParentId, k, q);
          } else {
            LinkKeepsLinked(unlinked, t.id, newParentId, k, newParentId);
          }
        }
      }
    }

    /**
     * The `id` setter: the node moves to the new id with the task's height. The
     * index maps keep the old id; nothing re-files the task.
     */
    method SetId(t: ReactiveTask, newId: int)
      modifies t`id, this`layoutNodes
      ensures t.id == newId
      ensures layoutNodes == (old(layoutNodes) - {old(t.id)})[newId := Size(NodeWidth, t.elHeight)]
    {
      layoutNodes := layoutNodes - {t.id};
      t.id := newId;
      layoutNodes := layoutNodes[t.id := Size(NodeWidth, t.elHeight)];
    }

    /** The `elHeight` setter: nothing for an equal value; otherwise resize the node and request a pass. */
    method SetElHeight(t: ReactiveTask, newHeight: real)
      modifies t`elHeight, this`layoutNodes, this`relayoutQueued
      ensures t.elHeight == newHeight
      ensures old(t.elHeight) == newHeight ==> layoutNodes == old(layoutNodes) && relayoutQueued == old(relayoutQueued)
      ensures old(t.elHeight) != newHeight ==>
        layoutNodes == old(layoutNodes)[t.id := Size(NodeWidth, newHeight)] && relayoutQueued
    {
      if t.elHeight == newHeight {
        return;
      }
      t.elHeight := newHeight;
      layoutNodes := layoutNodes[t.id := Size(NodeWidth, t.elHeight)];
      RequestPass();
    }

    /**
     * The edge loop of the pass, for parent id `p`: each listed child's edge is
     * set when both ends are shown and removed otherwise. When `strict`, the loop
     * dereferences as the source does and stops at the first pair that throws.
     */
    method SyncChildEdges(ghost depth: map<ReactiveTask, nat>, p: int, strict: bool) returns (threw: bool)
      requires DepthRanked(tasks, depth) && p in parentsToChildIds
      modifies this`layoutEdges
      ensures threw ==> strict && exists c :: c in parentsToChildIds[p] && Throws(tasks, depth, p, c)
      ensures !threw ==> strict ==> forall c :: c in parentsToChildIds[p] ==> !Throws(tasks, depth, p, c)
      ensures !threw ==> forall c :: c in parentsToChildIds[p] ==> ((p, c) in layoutEdges <==> Shown(tasks, depth, p, c))
      ensures forall e: (int, int) :: e.0 != p || e.1 !in parentsToChildIds[p] ==> (e in layoutEdges <==> e in old(layoutEdges))
    {
      var cs := parentsToChildIds[p];
      var i := 0;
      while i < |cs|
        invariant 0 <= i <= |cs|
        invariant strict ==> forall j :: 0 <= j < i ==> !Throws(tasks, depth, p, cs[j])
        invariant forall j :: 0 <= j < i ==> ((p, cs[j]) in layoutEdges <==> Shown(tasks, depth, p, cs[j]))
        invariant forall e: (int, int) :: e.0 != p || e.1 !in cs ==> (e in layoutEdges <==> e in old(layoutEdges))
      {
        var c := cs[i];
        if strict && Throwing(depth, p, c) {
          return true;
        }
        if c in tasks && p in tasks && Visible(tasks, depth, tasks[c]) && Visible(tasks, depth, tasks[p]) {
          layoutEdges := layoutEdges + {(p, c)};
        } else {
          layoutEdges := layoutEdges - {(p, c)};
        }
        i := i + 1;
      }
      return false;
    }

    /** Evaluates `!tasks.get(c)!.visible || !tasks.get(p)!.visible` up to the point where it would throw. */
    function Throwing(ghost depth: map<ReactiveTask, nat>, p: int, c: int): (r: bool)
      reads this, tasks.Values
      requires DepthRanked(tasks, depth)
      ensures r == Throws(tasks, depth, p, c)
    {
      c !in tasks || (Visible(tasks, depth, tasks[c]) && p !in tasks)
    }

    /** The whole edge loop, over every child set. */
    method SyncEdges(ghost depth: map<ReactiveTask, nat>, strict: bool) returns (threw: bool)
      requires DepthRanked(tasks, depth)
      modifies this`layoutEdges
      ensures threw <==> strict && exists p, c :: Listed(parentsToChildIds, p, c) && Throws(tasks, depth, p, c)
      ensures !threw ==> forall p, c :: Listed(parentsToChildIds, p, c) ==> ((p, c) in layoutEdges <==> Shown(tasks, depth, p, c))
      ensures forall e: (int, int) :: !Listed(parentsToChildIds, e.0, e.1) ==> (e in layoutEdges <==> e in old(layoutEdges))
    {
      var pending := parentsToChildIds.Keys;
      while pending != {}
        invariant pending <= parentsToChildIds.Keys
        invariant strict ==> forall p, c :: p !in pending && Listed(parentsToChildIds, p, c) ==> !Throws(tasks, depth, p, c)
        invariant forall p, c :: p !in pending && Listed(parentsToChildIds, p, c) ==> ((p, c) in layoutEdges <==> Shown(tasks, depth, p, c))
        invariant forall e: (int, int) :: (e.0 in pending || !Listed(parentsToChildIds, e.0, e.1)) ==> (e in layoutEdges <==> e in old(layoutEdges))
        decreases pending
      {
        ghost var someParent := ElementOf(pending);
        var p :| p in pending;
        threw := SyncChildEdges(depth, p, strict);
        if threw {
          return;
        }
        pending := pending - {p};
      }
      threw := false;
    }

    /**
     * The node loop of the pass: a node for each visible task (width 600, its
     * height) and none for each hidden one; the visible tasks are returned in
     * visiting order, and nodes of ids no task carries are left alone.
     */
    method SyncNodes(ghost depth: map<ReactiveTask, nat>) returns (shown: seq<ReactiveTask>)
      requires DepthRanked(tasks, depth) && DistinctIds(tasks)
      modifies this`layoutNodes
      ensures forall t :: t in shown ==> t in tasks.Values && Visible(tasks, depth, t)
      ensures forall t :: t in tasks.Values ==> (Visible(tasks, depth, t) ==> t in shown) && NodeSynced(tasks, depth, layoutNodes, t)
      ensures forall id :: id !in TaskIds(tasks) ==> SameNode(old(layoutNodes), layoutNodes, id)
    {
      shown := [];
      ghost var touched: set<int> := {};
      var pending := tasks.Keys;
      while pending != {}
        invariant pending <= tasks.Keys
        invariant touched <= TaskIds(tasks)
        invariant NodesSyncedFor(tasks, depth, layoutNodes, shown, tasks.Keys - pending)
        invariant forall id :: id !in touched ==> SameNode(old(layoutNodes), layoutNodes, id)
        decreases pending
      {
        ghost var someKey := ElementOf(pending);
        var k :| k in pending;
        var t := tasks[k];
        ghost var done := tasks.Keys - pending;
        pending := pending - {k};
        touched := touched + {t.id};
        ghost var before := layoutNodes;
        var isShown := SyncNode(depth, t);
        NodeStepKeepsOthers(tasks, depth, before, layoutNodes, shown, k, done);
        if isShown {
          shown := shown + [t];
        }
        assert tasks.Keys - pending == done + {k};
        forall id | id !in touched
          ensures SameNode(old(layoutNodes), layoutNodes, id)
        {
          assert SameNode(before, layoutNodes, id);
        }
      }
      forall t | t in tasks.Values
        ensures (Visible(tasks, depth, t) ==> t in shown) && NodeSynced(tasks, depth, layoutNodes, t)
      {
        var k := KeyOf(tasks, t);
        assert k in tasks.Keys - pending;
      }
    }

    /** One step of the node loop: set or remove `t`'s node. */
    method SyncNode(ghost depth: map<ReactiveTask, nat>, t: ReactiveTask) returns (isShown: bool)
      requires DepthRanked(tasks, depth) && t in tasks.Values
      modifies this`layoutNodes
      ensures isShown == Visible(tasks, depth, t) && NodeSynced(tasks, depth, layoutNodes, t)
      ensures forall id :: id != t.id ==> SameNode(old(layoutNodes), layoutNodes, id)
    {
      isShown := Visible(tasks, depth, t);
      if !isShown {
        layoutNodes := layoutNodes - {t.id};
      } else {
        layoutNodes := layoutNodes[t.id := Size(NodeWidth, t.elHeight)];
      }
    }

    /**
     * The edge and node loops of the corrected pass: each listed edge is kept
     * exactly when both ends are indexed and visible, each task's node is
     * synced, and the tasks returned are exactly the visible ones.
     */
    method SyncGraph(ghost depth: map<ReactiveTask, nat>) returns (shown: seq<ReactiveTask>)
      requires DepthRanked(tasks, depth) && DistinctIds(tasks)
      modifies this`layoutEdges, this`layoutNodes
      ensures forall p, c :: Listed(parentsToChildIds, p, c) ==> ((p, c) in layoutEdges <==> Shown(tasks, depth, p, c))
      ensures forall t :: t in shown ==> t in tasks.Values
      ensures forall t :: t in tasks.Values ==> (t in shown <==> Visible(tasks, depth, t)) && NodeSynced(tasks, depth, layoutNodes, t)
      ensures forall id :: id !in TaskIds(tasks) ==> SameNode(old(layoutNodes), layoutNodes, id)
    {
      var threw := SyncEdges(depth, false);
      shown := SyncNodes(depth);
    }

    /** The write-back loop: each shown task's target becomes its node's centre shifted to the top-left corner. */
    method PlaceShown(shown: seq<ReactiveTask>, placed: map<int, Point>)
      requires forall t :: t in shown ==> t in tasks.Values && t.id in placed
      modifies tasks.Values`posTarget
      ensures forall t :: t in tasks.Values ==>
        t.posTarget == if t in shown then TopLeft(placed[t.id], NodeWidth, t.elHeight) else old(t.posTarget)
    {
      var i := 0;
      while i < |shown|
        invariant 0 <= i <= |shown|
        invariant forall t :: t in tasks.Values ==>
          t.posTarget == if t in shown[..i] then TopLeft(placed[t.id], NodeWidth, t.elHeight) else old(t.posTarget)
      {
        var t := shown[i];
        assert shown[..i + 1] == shown[..i] + [t];
        t.posTarget := TopLeft(placed[t.id], NodeWidth, t.elHeight);
        i := i + 1;
      }
      assert shown[..i] == shown;
    }

    /**
     * The queued pass as written: when the edge loop throws, the callback stops
     * before clearing `relayoutQueued`, so nodes and positions are untouched and
     * every later `RequestPass` is a no-op. The listed edges the loop reached
     * before the throw are synced and the rest are not; which ones it reached
     * depends on the map's iteration order, so only the unlisted edges are
     * stated. A pass that does not throw leaves the same graph and positions
     * as `RunPass`.
     */
    method RunPassAsWritten(ghost depth: map<ReactiveTask, nat>, layout: LayoutGraph -> map<int, Point>) returns (threw: bool)
      requires DepthRanked(tasks, depth) && DistinctIds(tasks) && PlacesAllNodes(layout)
      requires relayoutQueued
      modifies this`layoutEdges, this`layoutNodes, this`relayoutQueued, tasks.Values`posTarget
      ensures threw <==> exists p, c :: Listed(parentsToChildIds, p, c) && Throws(tasks, depth, p, c)
      ensures threw ==> relayoutQueued && layoutNodes == old(layoutNodes)
      ensures threw ==> forall t :: t in tasks.Values ==> t.posTarget == old(t.posTarget)
      ensures forall e: (int, int) :: !Listed(parentsToChildIds, e.0, e.1) ==> (e in layoutEdges <==> e in old(layoutEdges))
      ensures !threw ==> !relayoutQueued
      ensures !threw ==> forall p, c :: Listed(parentsToChildIds, p, c) ==> ((p, c) in layoutEdges <==> Shown(tasks, depth, p, c))
      ensures !threw ==> forall t :: t in tasks.Values ==> NodeSynced(tasks, depth, layoutNodes, t)
      ensures !threw ==> forall t :: t in tasks.Values && Visible(tasks, depth, t) ==>
        t.id in layout(LayoutGraph(layoutNodes, layoutEdges))
        && t.posTarget == TopLeft(layout(LayoutGraph(layoutNodes, layoutEdges))[t.id], NodeWidth, t.elHeight)
      ensures !threw ==> forall t :: t in tasks.Values && !Visible(tasks, depth, t) ==> t.posTarget == old(t.posTarget)
      ensures !threw ==> forall id :: id !in TaskIds(tasks) ==> SameNode(old(layoutNodes), layoutNodes, id)
    {
      threw := SyncEdges(depth, true);
      if threw {
        return;
      }
      var shown := SyncNodes(depth);
      var placed := layout(LayoutGraph(layoutNodes, layoutEdges));
      assert forall t :: t in shown ==> t.id in LayoutGraph(layoutNodes, layoutEdges).nodes;
      PlaceShown(shown, placed);
      relayoutQueued := false;
    }

    /**
     * The queued pass with missing tasks counted as not shown: it always
     * completes, each listed edge is kept exactly when both ends are indexed and
     * visible, each visible task gets a node and a position from its centre, and
     * the queue flag is cleared.
     */
    method RunPass(ghost depth: map<ReactiveTask, nat>, layout: LayoutGraph -> map<int, Point>) returns (g: LayoutGraph)
      requires DepthRanked(tasks, depth) && DistinctIds(tasks) && PlacesAllNodes(layout)
      requires relayoutQueued
      modifies this`layoutEdges, this`layoutNodes, this`relayoutQueued, tasks.Values`posTarget
      ensures !relayoutQueued && g == LayoutGraph(layoutNodes, layoutEdges)
      ensures forall p, c :: Listed(parentsToChildIds, p, c) ==> ((p, c) in layoutEdges <==> Shown(tasks, depth, p, c))
      ensures forall t :: t in tasks.Values ==> NodeSynced(tasks, depth, layoutNodes, t)
      ensures forall t :: t in tasks.Values && Visible(tasks, depth, t) ==>
        t.id in layout(g) && t.posTarget == TopLeft(layout(g)[t.id], NodeWidth, t.elHeight)
      ensures forall t :: t in tasks.Values && !Visible(tasks, depth, t) ==> t.posTarget == old(t.posTarget)
      ensures forall id :: id !in TaskIds(tasks) ==> SameNode(old(layoutNodes), layoutNodes, id)
    {
      var shown := SyncGraph(depth);
      g := LayoutGraph(layoutNodes, layoutEdges);
      assert forall t :: t in shown ==> t.id in g.nodes;
      PlaceShown(shown, layout(g));
      relayoutQueued := false;
    }

    /** `flowNodes`: one node per visible task, at its target position. */
    function FlowNodes(ghost depth: map<ReactiveTask, nat>): (r: set<FlowNode<ReactiveTask>>)
      reads this, tasks.Values
      requires DepthRanked(tasks, depth)
      ensures forall t :: t in tasks.Values && Visible(tasks, depth, t) ==> FlowNode(IntToString(t.id), "task", t.posTarget, t) in r
      ensures forall n :: n in r ==>
        n.data in tasks.Values && Visible(tasks, depth, n.data) && n == FlowNode(IntToString(n.data.id), "task", n.data.posTarget, n.data)
    {
      set t | t in tasks.Values && Visible(tasks, depth, t) :: FlowNode(IntToString(t.id), "task", t.posTarget, t)
    }

    /** `flowEdges`: an edge to every child id listed under a visible task's id, whatever the child's visibility. */
    function FlowEdges(ghost depth: map<ReactiveTask, nat>): (r: set<FlowEdge>)
      reads this, tasks.Values
      requires DepthRanked(tasks, depth)
      ensures forall t, c :: t in tasks.Values && Visible(tasks, depth, t) && Listed(parentsToChildIds, t.id, c) ==>
        FlowEdge(EdgeId(t.id, c), "ancestry", IntToString(t.id), IntToString(c)) in r
      ensures forall e :: e in r ==>
        exists t, c :: t in tasks.Values && Visible(tasks, depth, t) && Listed(parentsToChildIds, t.id, c)
          && e == FlowEdge(EdgeId(t.id, c), "ancestry", IntToString(t.id), IntToString(c))
    {
      set t, c | t in tasks.Values && Visible(tasks, depth, t) && t.id in parentsToChildIds && c in parentsToChildIds[t.id]
        :: FlowEdge(EdgeId(t.id, c), "ancestry", IntToString(t.id), IntToString(c))
    }
  }

  /** A root is visible here even when it is cleared or trashed. */
  lemma ClearedRootVisible(tasks: map<int, ReactiveTask>, depth: map<ReactiveTask, nat>, t: ReactiveTask)
    requires DepthRanked(tasks, depth) && Below(tasks, depth, t)
    requires t.parentId.None? && t.clear && t.trashed
    ensures Visible(tasks, depth, t)
  {
  }

  /**
   * A visible parent that hides its children still lists an edge to each child,
   * although the child itself is hidden.
   */
  lemma EdgeToHiddenChild(u: UseTasks, depth: map<ReactiveTask, nat>, parent: ReactiveTask, child: ReactiveTask)
    requires DepthRanked(u.tasks, depth)
    requires parent in u.tasks.Values && child in u.tasks.Values
    requires u.tasks.Keys == {parent.id, child.id} && u.tasks[parent.id] == parent && u.tasks[child.id] == child
    requires Visible(u.tasks, depth, parent) && parent.hideChildren
    requires child.parentId == Some(parent.id) && Listed(u.parentsToChildIds, parent.id, child.id)
    ensures !Visible(u.tasks, depth, child)
    ensures FlowEdge(EdgeId(parent.id, child.id), "ancestry", IntToString(parent.id), IntToString(child.id)) in u.FlowEdges(depth)
  {
  }

  /**
   * A visible task whose parent is not loaded makes the as-written pass throw,
   * and the pass stays queued for good; the corrected pass completes.
   */
  method OrphanWedgesRelayout(layout: LayoutGraph -> map<int, Point>) returns (threw: bool, stillQueued: bool, correctedQueued: bool)
    requires PlacesAllNodes(layout)
    ensures threw && stillQueued && !correctedQueued
  {
    var u := new UseTasks();
    var orphan := u.AddTask(ApiTask(2, "orphan", None, Some(1), false, false, false, false, []));
    ghost var depth := map[orphan := 0];
    assert u.tasks == map[2 := orphan];
    assert DepthRanked(u.tasks, depth) && DistinctIds(u.tasks);
    assert Listed(u.parentsToChildIds, 1, 2) && Throws(u.tasks, depth, 1, 2);
    u.RequestPass();
    threw := u.RunPassAsWritten(depth, layout);
    assert u.tasks == map[2 := orphan] && orphan.parentId == Some(1);
    assert DepthRanked(u.tasks, depth) && DistinctIds(u.tasks);
    u.RequestPass();
    stillQueued := u.relayoutQueued;
    var _ := u.RunPass(depth, layout);
    correctedQueued := u.relayoutQueued;
  }
}
