/**
 * The module-level store (src/routes/store.svelte.ts): the first generation of
 * the task index. Module state becomes the fields of one `Store` object. Each
 * entry wraps the server's task record, whose `parent_id` the store reassigns in
 * place.
 *
 * Hour totals, the animation clock and `PosData`'s interpolation are not
 * modelled; an entry's position is the target `setTarget` receives.
 */
module Stores {
  import opened Options
  import opened OrderedSets
  import opened ChildIndex
  import opened Layout
  import opened Flow

  /** The server's task record, as far as the store reads and writes it. */
  class StoreTask {
    /** No store operation changes a task's id. */
    const id: int
    var parentId: Option<int>
    var hidden: bool
    var trashed: bool
    var clear: bool

    constructor (id: int, parentId: Option<int>, hidden: bool, trashed: bool, clear: bool)
      ensures this.id == id && this.parentId == parentId && this.hidden == hidden
      ensures this.trashed == trashed && this.clear == clear
    {
      this.id := id;
      this.parentId := parentId;
      this.hidden := hidden;
      this.trashed := trashed;
      this.clear := clear;
    }
  }

  /** `TaskDataObj`: the entry for one task. */
  class TaskData {
    const task: StoreTask
    /** `posData`'s target */
    var posTarget: Point

    constructor (task: StoreTask)
      ensures this.task == task && posTarget == Point(0.0, 0.0)
    {
      this.task := task;
      posTarget := Point(0.0, 0.0);
    }
  }

  /** `invisible`: the task is hidden, trashed or cleared. */
  function Invisible(d: TaskData): (r: bool)
    reads d.task`hidden, d.task`trashed, d.task`clear
    ensures r <==> d.task.hidden || d.task.trashed || d.task.clear
  {
    d.task.hidden || d.task.trashed || d.task.clear
  }

  ghost predicate Below(tasks: map<int, TaskData>, depth: map<TaskData, nat>, d: TaskData)
    reads d.task`parentId
  {
    && d in depth
    && (d.task.parentId.Some? && d.task.parentId.value in tasks ==>
          tasks[d.task.parentId.value] in depth && depth[tasks[d.task.parentId.value]] < depth[d])
  }

  ghost predicate DepthRanked(tasks: map<int, TaskData>, depth: map<TaskData, nat>)
    reads set d | d in tasks.Values :: d.task`parentId
  {
    forall d :: d in tasks.Values ==> Below(tasks, depth, d)
  }

  /**
   * `hasInvisibleAncestor`: false for a root, true for an invisible non-root,
   * otherwise the parent entry's result. The parent is looked up without a
   * guard, so a missing parent makes the evaluation fail (`None`).
   */
  function HasInvisibleAncestor(tasks: map<int, TaskData>, ghost depth: map<TaskData, nat>, d: TaskData): (r: Option<bool>)
    reads d.task, set e | e in tasks.Values :: e.task
    requires DepthRanked(tasks, depth) && Below(tasks, depth, d)
    ensures d.task.parentId.None? ==> r == Some(false)
    ensures d.task.parentId.Some? && Invisible(d) ==> r == Some(true)
    ensures d.task.parentId.Some? && !Invisible(d) ==>
      if d.task.parentId.value in tasks then r == HasInvisibleAncestor(tasks, depth, tasks[d.task.parentId.value]) else r.None?
    decreases depth[d]
  {
    match d.task.parentId
    case None => Some(false)
    case Some(p) =>
      if Invisible(d) then Some(true)
      else if p !in tasks then None
      else HasInvisibleAncestor(tasks, depth, tasks[p])
  }

  /** How far a walk up from parent id `pid` can go. */
  ghost function Reach(tasks: map<int, TaskData>, depth: map<TaskData, nat>, pid: Option<int>): nat
    reads set e | e in tasks.Values :: e.task
    requires DepthRanked(tasks, depth)
  {
    if pid.Some? && pid.value in tasks then
      assert tasks[pid.value] in tasks.Values;
      depth[tasks[pid.value]] + 1
    else 0
  }

  /** The entries above parent id `pid`, root first, up to the first missing id. */
  ghost function Ancestors(tasks: map<int, TaskData>, depth: map<TaskData, nat>, pid: Option<int>): (r: seq<TaskData>)
    reads set e | e in tasks.Values :: e.task
    requires DepthRanked(tasks, depth)
    ensures forall a :: a in r ==> a in tasks.Values
    decreases Reach(tasks, depth, pid)
  {
    match pid
    case None => []
    case Some(p) =>
      if p !in tasks then []
      else
        assert tasks[p] in tasks.Values;
        Ancestors(tasks, depth, tasks[p].task.parentId) + [tasks[p]]
  }

  /** The walk upwards from `d` ends at a root, or at a missing parent id. */
  ghost predicate ReachesRoot(tasks: map<int, TaskData>, depth: map<TaskData, nat>, d: TaskData)
    reads d.task, set e | e in tasks.Values :: e.task
    requires DepthRanked(tasks, depth)
  {
    var top := (Ancestors(tasks, depth, d.task.parentId) + [d])[0];
    top.task.parentId.None?
  }

  /**
   * Along a chain that reaches a root, the check answers whether some non-root
   * task on it (the task itself included) is invisible; along a chain that
   * stops at a missing id, it fails unless such a task lies below the gap.
   */
  lemma {:induction false} HasInvisibleAncestorIffChain(tasks: map<int, TaskData>, depth: map<TaskData, nat>, d: TaskData)
    requires DepthRanked(tasks, depth) && Below(tasks, depth, d)
    ensures var hit := exists a :: a in Ancestors(tasks, depth, d.task.parentId) + [d] && a.task.parentId.Some? && Invisible(a);
      HasInvisibleAncestor(tasks, depth, d) == if hit then Some(true) else if ReachesRoot(tasks, depth, d) then Some(false) else None
    decreases depth[d]
  {
    var chain := Ancestors(tasks, depth, d.task.parentId) + [d];
    match d.task.parentId
    case None =>
      assert chain == [d];
    case Some(p) =>
      if p in tasks {
        var parent := tasks[p];
        assert parent in tasks.Values;
        HasInvisibleAncestorIffChain(tasks, depth, parent);
        var up := Ancestors(tasks, depth, parent.task.parentId) + [parent];
        assert chain == up + [d];
        assert (up + [d])[0] == up[0];
      } else {
        assert chain == [d];
      }
  }

  /** What a memo table may hold: each entry agrees with a fresh evaluation. */
  ghost predicate MemoSound(tasks: map<int, TaskData>, depth: map<TaskData, nat>, memo: map<int, bool>)
    reads set e | e in tasks.Values :: e.task
    requires DepthRanked(tasks, depth)
  {
    forall id :: id in memo ==> id in tasks && HasInvisibleAncestor(tasks, depth, tasks[id]) == Some(memo[id])
  }

  /** Each entry is stored under its own task's id. */
  ghost predicate KeysMatch(tasks: map<int, TaskData>)
    reads tasks.Values
  {
    forall k :: k in tasks ==> tasks[k].task.id == k
  }

  /**
   * `hasInvisibleAncestor` with its memo table: a memoised answer is returned
   * as it is, a fresh one is stored under the task's id; a failure stores
   * nothing further. The answer is the one `HasInvisibleAncestor` gives.
   */
  method HasInvisibleAncestorMemo(tasks: map<int, TaskData>, ghost depth: map<TaskData, nat>, d: TaskData, memo: map<int, bool>)
    returns (r: Option<bool>, memo': map<int, bool>)
    requires DepthRanked(tasks, depth) && KeysMatch(tasks) && d in tasks.Values
    requires MemoSound(tasks, depth, memo)
    ensures r == HasInvisibleAncestor(tasks, depth, d)
    ensures MemoSound(tasks, depth, memo') && memo.Keys <= memo'.Keys && (r.Some? ==> d.task.id in memo')
    decreases depth[d]
  {
    var key := KeyOf(tasks, d);
    assert tasks[d.task.id] == d;
    if d.task.id in memo {
      return Some(memo[d.task.id]), memo;
    }
    match d.task.parentId {
      case None =>
        r, memo' := Some(false), memo;
      case Some(p) =>
        if Invisible(d) {
          r, memo' := Some(true), memo;
        } else if p !in tasks {
          return None, memo;
        } else {
          assert tasks[p] in tasks.Values;
          r, memo' := HasInvisibleAncestorMemo(tasks, depth, tasks[p], memo);
          if r.None? {
            return;
          }
        }
    }
    memo' := memo'[d.task.id := r.value];
  }

  /** The entry's check succeeded, and its node is among `nodes` exactly when it has no invisible ancestor. */
  ghost predicate Checked(tasks: map<int, TaskData>, depth: map<TaskData, nat>, nodes: set<FlowNode<TaskData>>, d: TaskData)
    reads d, d.task, set e | e in tasks.Values :: e.task
    requires DepthRanked(tasks, depth) && Below(tasks, depth, d)
  {
    && HasInvisibleAncestor(tasks, depth, d).Some?
    && (NodeOf(d) in nodes <==> HasInvisibleAncestor(tasks, depth, d) == Some(false))
  }

  /** The node `flowNodes` renders for an entry. */
  function NodeOf(d: TaskData): (n: FlowNode<TaskData>)
    reads d`posTarget
    ensures n.id == IntToString(d.task.id) && n.kind == "task" && n.position == d.posTarget && n.data == d
  {
    FlowNode(IntToString(d.task.id), "task", d.posTarget, d)
  }

  class Store {
    var tasks: map<int, TaskData>
    var parentsToChildIds: map<int, seq<int>>

    ghost predicate Valid()
      reads this, tasks.Values
    {
      WellFormed(parentsToChildIds) && KeysMatch(tasks)
    }

    /**
     * Every entry whose task has a parent id is listed in that parent's child
     * set; `delTask` breaks this for the children of the deleted task, whose
     * child set it drops.
     */
    ghost predicate Linked()
      reads this, set d | d in tasks.Values :: d.task
    {
      forall k :: k in tasks ==> LinkedAt(parentsToChildIds, k, tasks[k].task.parentId)
    }

    constructor ()
      ensures Valid() && Linked() && tasks == map[] && parentsToChildIds == map[]
    {
      tasks := map[];
      parentsToChildIds := map[];
    }

    /** `addTask(task)`: a new entry under the task's id, linked under its parent when it has one. */
    method AddTask(task: StoreTask) returns (d: TaskData)
      requires Valid()
      modifies this`tasks, this`parentsToChildIds
      ensures Valid()
      ensures fresh(d) && d.task == task
      ensures tasks == old(tasks)[task.id := d]
      ensures parentsToChildIds == Link(old(parentsToChildIds), task.id, task.parentId)
      ensures old(Linked()) ==> Linked()
    {
      d := new TaskData(task);
      tasks := tasks[task.id := d];
      if task.parentId.Some? {
        parentsToChildIds := Link(parentsToChildIds, task.id, task.parentId);
      }
      if old(Linked()) {
        forall k | k in tasks
          ensures LinkedAt(parentsToChildIds, k, tasks[k].task.parentId)
        {
          LinkKeepsLinked(old(parentsToChildIds), task.id, task.parentId, k, tasks[k].task.parentId);
        }
      }
    }

    /** `getTask(id)` */
    function GetTask(id: int): (r: Option<TaskData>)
      reads this
      ensures r.Some? <==> id in tasks
      ensures r.Some? ==> r.value == tasks[id]
    {
      if id in tasks then Some(tasks[id]) else None
    }

    /** `delTask(task)`: drops the entry and the task's own child set, then unlinks it from its parent's set. */
    method DelTask(task: StoreTask)
      requires Valid()
      modifies this`tasks, this`parentsToChildIds
      ensures Valid()
      ensures tasks == old(tasks) - {task.id}
      ensures parentsToChildIds == Unlink(old(parentsToChildIds) - {task.id}, task.id, task.parentId)
      ensures forall p :: p in parentsToChildIds <==> p in old(parentsToChildIds) && p != task.id
      ensures old(Linked()) ==>
        forall k :: k in tasks && tasks[k].task.parentId != Some(task.id) ==> LinkedAt(parentsToChildIds, k, tasks[k].task.parentId)
      ensures forall k :: k in tasks && tasks[k].task.parentId == Some(task.id) ==> !LinkedAt(parentsToChildIds, k, tasks[k].task.parentId)
    {
      tasks := tasks - {task.id};
      parentsToChildIds := parentsToChildIds - {task.id};
      if task.parentId.Some? {
        parentsToChildIds := Unlink(parentsToChildIds, task.id, task.parentId);
      }
      if old(Linked()) {
        forall k | k in tasks && tasks[k].task.parentId != Some(task.id)
          ensures LinkedAt(parentsToChildIds, k, tasks[k].task.parentId)
        {
          var q := tasks[k].task.parentId;
          DropKeepsLinked(old(parentsToChildIds), task.id, k, q);
          UnlinkKeepsLinked(old(parentsToChildIds) - {task.id}, task.id, task.parentId, k, q);
        }
      }
    }

    /**
     * `setNewTaskParent(task, parentId)`: nothing for an unchanged parent;
     * otherwise the id leaves the old parent's set, the record takes the new
     * parent, and the id joins the new parent's set.
     */
    method SetNewTaskParent(task: StoreTask, parentId: Option<int>)
      requires Valid()
      modifies this`parentsToChildIds, task`parentId
      ensures Valid() && task.parentId == parentId
      ensures old(task.parentId) == parentId ==> parentsToChildIds == old(parentsToChildIds)
      ensures old(task.parentId) != parentId ==>
        parentsToChildIds == Link(Unlink(old(parentsToChildIds), task.id, old(task.parentId)), task.id, parentId)
      ensures old(Linked()) && (task.id in tasks ==> tasks[task.id].task == task) ==> Linked()
    {
      if task.parentId == parentId {
        return;
      }
      parentsToChildIds := Unlink(parentsToChildIds, task.id, task.parentId);
      task.parentId := parentId;
      if parentId.Some? {
        parentsToChildIds := Link(parentsToChildIds, task.id, parentId);
      }
      if old(Linked()) && (task.id in tasks ==> tasks[task.id].task == task) {
        var unlinked := Unlink(old(parentsToChildIds), task.id, old(task.parentId));
        forall k | k in tasks
          ensures LinkedAt(parentsToChildIds, k, tasks[k].task.parentId)
        {
          if k != task.id {
            var q := tasks[k].task.parentId;
            UnlinkKeepsLinked(old(parentsToChildIds), task.id, old(task.parentId), k, q);
            LinkKeepsLinked(unlinked, task.id, parentId, k, q);
          } else {
            LinkKeepsLinked(unlinked, task.id, parentId, k, parentId);
          }
        }
      }
    }

    /**
     * `flowNodes`: the node of every entry with no invisible ancestor, sharing
     * one memo table across entries. When any entry's check fails, the whole
     * evaluation fails.
     */
    method FlowNodes(ghost depth: map<TaskData, nat>) returns (r: Option<set<FlowNode<TaskData>>>)
      requires Valid() && DepthRanked(tasks, depth)
      ensures r.None? <==> exists d :: d in tasks.Values && HasInvisibleAncestor(tasks, depth, d).None?
      ensures r.Some? ==> forall d :: d in tasks.Values ==> (NodeOf(d) in r.value <==> HasInvisibleAncestor(tasks, depth, d) == Some(false))
      ensures r.Some? ==> forall n :: n in r.value ==> n.data in tasks.Values && n == NodeOf(n.data)
    {
      var memo: map<int, bool> := map[];
      var nodes: set<FlowNode<TaskData>> := {};
      ghost var done: set<TaskData> := {};
      var pending := tasks.Keys;
      while pending != {}
        invariant pending <= tasks.Keys
        invariant MemoSound(tasks, depth, memo)
        invariant forall k :: k in tasks && k !in pending ==> tasks[k] in done
        invariant forall e :: e in done ==> e in tasks.Values && Checked(tasks, depth, nodes, e)
        invariant forall n :: n in nodes ==> n.data in done && n == NodeOf(n.data)
        decreases pending
      {
        ghost var someKey := ElementOf(pending);
        var k :| k in pending;
        var d := tasks[k];
        assert d in tasks.Values;
        var hidden;
        hidden, memo := HasInvisibleAncestorMemo(tasks, depth, d, memo);
        if hidden.None? {
          assert HasInvisibleAncestor(tasks, depth, d).None?;
          return None;
        }
        if !hidden.value {
          nodes := nodes + {NodeOf(d)};
        }
        done := done + {d};
        pending := pending - {k};
      }
      forall d | d in tasks.Values
        ensures Checked(tasks, depth, nodes, d)
      {
        var k := KeyOf(tasks, d);
      }
      return Some(nodes);
    }

    /** `flowEdges`: one edge `e{p}-{c}` for each child id `c` in parent id `p`'s set. */
    function FlowEdges(): (r: set<FlowEdge>)
      reads this
      ensures forall p, c :: p in parentsToChildIds && c in parentsToChildIds[p] ==>
        FlowEdge(EdgeId(p, c), "ancestry", IntToString(p), IntToString(c)) in r
      ensures forall e :: e in r ==>
        exists p, c :: p in parentsToChildIds && c in parentsToChildIds[p] && e == FlowEdge(EdgeId(p, c), "ancestry", IntToString(p), IntToString(c))
    {
      set p, c | p in parentsToChildIds && c in parentsToChildIds[p] :: FlowEdge(EdgeId(p, c), "ancestry", IntToString(p), IntToString(c))
    }

    /**
     * `updateNodePositions`' graph: a fresh graph with an edge for every
     * listed pair and a 300 by 150 node for every entry.
     */
    method BuildGraph() returns (g: LayoutGraph)
      requires Valid()
      ensures forall p, c :: (p, c) in g.edges <==> p in parentsToChildIds && c in parentsToChildIds[p]
      ensures g.nodes.Keys == tasks.Keys && forall id :: id in g.nodes ==> g.nodes[id] == Size(StoreNodeWidth, StoreNodeHeight)
    {
      var edges: set<(int, int)> := {};
      var parents := parentsToChildIds.Keys;
      while parents != {}
        invariant parents <= parentsToChildIds.Keys
        invariant forall p, c :: (p, c) in edges <==> p in parentsToChildIds && p !in parents && c in parentsToChildIds[p]
        decreases parents
      {
        ghost var someParent := ElementOf(parents);
        var p :| p in parents;
        var children := parentsToChildIds[p];
        var i := 0;
        while i < |children|
          invariant 0 <= i <= |children|
          invariant forall q, c :: (q, c) in edges <==>
            (q in parentsToChildIds && q !in parents && c in parentsToChildIds[q]) || (q == p && c in children[..i])
        {
          assert children[..i + 1] == children[..i] + [children[i]];
          edges := edges + {(p, children[i])};
          i := i + 1;
        }
        assert children[..i] == children;
        parents := parents - {p};
      }
      var nodes: map<int, Size> := map[];
      var pending := tasks.Keys;
      while pending != {}
        invariant pending <= tasks.Keys
        invariant nodes.Keys == tasks.Keys - pending
        invariant forall id :: id in nodes ==> nodes[id] == Size(StoreNodeWidth, StoreNodeHeight)
        decreases pending
      {
        ghost var someKey := ElementOf(pending);
        var k :| k in pending;
        nodes := nodes[tasks[k].task.id := Size(StoreNodeWidth, StoreNodeHeight)];
        pending := pending - {k};
      }
      g := LayoutGraph(nodes, edges);
    }

    /** `updateNodePositions`: every entry's target becomes its node's centre shifted to the top-left corner. */
    method UpdateNodePositions(layout: LayoutGraph -> map<int, Point>) returns (g: LayoutGraph)
      requires Valid() && PlacesAllNodes(layout)
      modifies tasks.Values`posTarget
      ensures g.nodes.Keys == tasks.Keys
      ensures forall k :: k in tasks ==> tasks[k].posTarget == TopLeft(layout(g)[k], StoreNodeWidth, StoreNodeHeight)
    {
      g := BuildGraph();
      var placed := layout(g);
      var pending := tasks.Keys;
      while pending != {}
        invariant pending <= tasks.Keys
        invariant forall k :: k in tasks && k !in pending ==> tasks[k].posTarget == TopLeft(placed[k], StoreNodeWidth, StoreNodeHeight)
        decreases pending
      {
        ghost var someKey := ElementOf(pending);
        var k :| k in pending;
        var d := tasks[k];
        d.posTarget := TopLeft(placed[d.task.id], StoreNodeWidth, StoreNodeHeight);
        pending := pending - {k};
      }
    }
  }

  const StoreNodeWidth: real := 300.0
  const StoreNodeHeight: real := 150.0

  /** Distinct listed pairs give distinct edges. */
  lemma FlowEdgeIdsDistinct(p1: int, c1: int, p2: int, c2: int)
    requires (p1, c1) != (p2, c2)
    ensures FlowEdge(EdgeId(p1, c1), "ancestry", IntToString(p1), IntToString(c1))
         != FlowEdge(EdgeId(p2, c2), "ancestry", IntToString(p2), IntToString(c2))
  {
    if EdgeId(p1, c1) == EdgeId(p2, c2) {
      EdgeIdInjective(p1, c1, p2, c2);
    }
  }

  /** A root entry is shown even when it is hidden, trashed or cleared. */
  lemma InvisibleRootShown(tasks: map<int, TaskData>, depth: map<TaskData, nat>, d: TaskData)
    requires DepthRanked(tasks, depth) && Below(tasks, depth, d)
    requires d.task.parentId.None? && Invisible(d)
    ensures HasInvisibleAncestor(tasks, depth, d) == Some(false)
  {
  }
}
