/**
 * `useTasksGraphLayout` (src/lib/composables/useTasksGraphLayout.svelte.ts): a
 * layout graph kept in step with a caller-owned set of shown tasks by one effect
 * per task and a delete handler, with layout passes coalesced behind an
 * "already requested" flag.
 *
 * The caller-owned set is the parameter `shown` (a JS Set: a duplicate-free,
 * insertion-ordered sequence). The animation-frame callback is the method
 * `RunFrame`, invoked by the caller while a pass is requested.
 */
module UseTasksGraphLayouts {
  import opened Options
  import opened OrderedSets
  import opened Layout
  import opened Flow
  import opened UseTasks

  /** What a task's effect saw on its previous run: `lastId` and `lastParentId`. */
  datatype Seen = Seen(id: int, parentId: Option<int>)

  /** `removeFromGraph`'s edge removal: the edge from the parent, when there is one. */
  function DropEdge(edges: set<(int, int)>, childId: int, parentId: Option<int>): (r: set<(int, int)>)
    ensures parentId.None? ==> r == edges
    ensures parentId.Some? ==> (parentId.value, childId) !in r && forall e :: e in edges && e != (parentId.value, childId) ==> e in r
    ensures r <= edges
  {
    if parentId.None? then edges else edges - {(parentId.value, childId)}
  }

  /** `addToGraph`'s edge insertion: the edge from the parent, when there is one. */
  function WithEdge(edges: set<(int, int)>, childId: int, parentId: Option<int>): (r: set<(int, int)>)
    ensures parentId.None? ==> r == edges
    ensures parentId.Some? ==> (parentId.value, childId) in r && r - {(parentId.value, childId)} == edges - {(parentId.value, childId)}
    ensures edges <= r
  {
    if parentId.None? then edges else edges + {(parentId.value, childId)}
  }

  /** The effect's test for a task that moved since its last run. */
  predicate Moved(last: Option<Seen>, current: Seen) {
    last.Some? && last.value != current
  }

  /** The nodes after one run of a task's effect. */
  function NodesAfter(nodes: map<int, Size>, last: Option<Seen>, current: Seen, height: real, shown: bool): (r: map<int, Size>)
    ensures shown ==> current.id in r && r[current.id] == Size(NodeWidth, height)
    ensures !shown ==> current.id !in r
    ensures shown && Moved(last, current) && last.value.id != current.id ==> last.value.id !in r
    ensures forall id :: id != current.id && (Moved(last, current) && shown ==> id != last.value.id) ==>
      (id in r <==> id in nodes) && (id in r ==> r[id] == nodes[id])
  {
    if shown then
      var kept := if Moved(last, current) then nodes - {last.value.id} else nodes;
      kept[current.id := Size(NodeWidth, height)]
    else
      nodes - {current.id}
  }

  /** The edges after one run of a task's effect. */
  function EdgesAfter(edges: set<(int, int)>, last: Option<Seen>, current: Seen, shown: bool): (r: set<(int, int)>)
    ensures shown && current.parentId.Some? ==> (current.parentId.value, current.id) in r
    ensures !shown && current.parentId.Some? ==> (current.parentId.value, current.id) !in r
  {
    if shown then
      var kept := if Moved(last, current) then DropEdge(edges, last.value.id, last.value.parentId) else edges;
      WithEdge(kept, current.id, current.parentId)
    else
      DropEdge(edges, current.id, current.parentId)
  }

  /** Re-running a task's effect with nothing changed leaves the graph as the first run left it. */
  lemma EffectSettles(nodes: map<int, Size>, edges: set<(int, int)>, last: Option<Seen>, current: Seen, height: real, shown: bool)
    ensures NodesAfter(NodesAfter(nodes, last, current, height, shown), Some(current), current, height, shown)
      == NodesAfter(nodes, last, current, height, shown)
    ensures EdgesAfter(EdgesAfter(edges, last, current, shown), Some(current), current, shown)
      == EdgesAfter(edges, last, current, shown)
  {
  }

  /**
   * A shown task that moved from id `a` under parent `p` keeps no node under `a`
   * (when the id changed) and no edge from `p` to `a`, unless that is its
   * current edge.
   */
  lemma MovedTaskLeavesNothingBehind(nodes: map<int, Size>, edges: set<(int, int)>, last: Seen, current: Seen, height: real)
    requires last != current && last.parentId.Some?
    requires current.parentId.Some? ==> (last.parentId.value, last.id) != (current.parentId.value, current.id)
    ensures last.id != current.id ==> last.id !in NodesAfter(nodes, Some(last), current, height, true)
    ensures (last.parentId.value, last.id) !in EdgesAfter(edges, Some(last), current, true)
  {
  }

  /** The descriptors the caller renders for a shown task. */
  function NodeOf(t: ReactiveTask): (n: FlowNode<ReactiveTask>)
    reads t`id, t`posTarget
    ensures n.id == IntToString(t.id) && n.kind == "task" && n.position == t.posTarget && n.data == t
  {
    FlowNode(IntToString(t.id), "task", t.posTarget, t)
  }

  function EdgeOf(t: ReactiveTask): (e: Option<FlowEdge>)
    reads t`id, t`parentId
    ensures e.None? <==> t.parentId.None?
    ensures e.Some? ==>
      e.value.target == IntToString(t.id) && e.value.source == IntToString(t.parentId.value) && e.value.id == EdgeId(t.parentId.value, t.id)
  {
    match t.parentId
    case None => None
    case Some(p) => Some(FlowEdge(EdgeId(p, t.id), "ancestry", IntToString(p), IntToString(t.id)))
  }

  /** `flowNodes`: the node of each shown task, in the set's order. */
  function FlowNodes(shown: seq<ReactiveTask>): (r: seq<FlowNode<ReactiveTask>>)
    reads set t | t in shown :: t
    ensures |r| == |shown| && forall i :: 0 <= i < |shown| ==> r[i].data == shown[i] && r[i] == NodeOf(shown[i])
    decreases |shown|
  {
    if shown == [] then []
    else
      assert shown[0] in shown && forall t :: t in shown[1..] ==> t in shown;
      [NodeOf(shown[0])] + FlowNodes(shown[1..])
  }

  /** `flowEdges`: the non-null edges of the shown tasks, in the set's order. */
  function FlowEdges(shown: seq<ReactiveTask>): (r: seq<FlowEdge>)
    reads set t | t in shown :: t
    ensures |r| <= |shown|
    ensures forall t :: t in shown && t.parentId.Some? ==> EdgeOf(t).value in r
    ensures forall e :: e in r ==> exists t :: t in shown && EdgeOf(t) == Some(e)
    decreases |shown|
  {
    if shown == [] then []
    else
      assert shown[0] in shown && forall t :: t in shown[1..] ==> t in shown;
      var rest := FlowEdges(shown[1..]);
      match EdgeOf(shown[0])
      case None => rest
      case Some(e) => [e] + rest
  }

  class UseTasksGraphLayout {
    var layoutNodes: map<int, Size>
    var layoutEdges: set<(int, int)>
    var updateRequested: bool
    /** Each task effect's `lastId`/`lastParentId`; absent before its first run. */
    var lastSeen: map<ReactiveTask, Seen>

    constructor ()
      ensures layoutNodes == map[] && layoutEdges == {} && !updateRequested && lastSeen == map[]
    {
      layoutNodes := map[];
      layoutEdges := {};
      updateRequested := false;
      lastSeen := map[];
    }

    /** `requestUpdateNodePositions`: schedules a pass unless one is requested already. */
    method RequestUpdate()
      modifies this`updateRequested
      ensures updateRequested
    {
      if updateRequested {
        return;
      }
      updateRequested := true;
    }

    /** `removeFromGraph(childId, parentId)` */
    method RemoveFromGraph(childId: int, parentId: Option<int>)
      modifies this`layoutNodes, this`layoutEdges, this`updateRequested
      ensures layoutNodes == old(layoutNodes) - {childId}
      ensures layoutEdges == DropEdge(old(layoutEdges), childId, parentId)
      ensures updateRequested
    {
      layoutNodes := layoutNodes - {childId};
      if parentId.Some? {
        layoutEdges := layoutEdges - {(parentId.value, childId)};
      }
      RequestUpdate();
    }

    /** `addToGraph(task)` */
    method AddToGraph(t: ReactiveTask)
      modifies this`layoutNodes, this`layoutEdges, this`updateRequested
      ensures layoutNodes == old(layoutNodes)[t.id := Size(NodeWidth, t.elHeight)]
      ensures layoutEdges == WithEdge(old(layoutEdges), t.id, t.parentId)
      ensures updateRequested
    {
      layoutNodes := layoutNodes[t.id := Size(NodeWidth, t.elHeight)];
      if t.parentId.Some? {
        layoutEdges := layoutEdges + {(t.parentId.value, t.id)};
      }
      RequestUpdate();
    }

    /**
     * One run of task `t`'s effect. A shown task that moved since the last run
     * first loses its old node and edge; a shown task then gets its current
     * node and edge; a task not shown loses them. The run records what it saw.
     */
    method Effect(t: ReactiveTask, shown: seq<ReactiveTask>)
      modifies this`layoutNodes, this`layoutEdges, this`updateRequested, this`lastSeen
      ensures layoutNodes == NodesAfter(old(layoutNodes), LastSeen(old(lastSeen), t), Seen(t.id, t.parentId), t.elHeight, t in shown)
      ensures layoutEdges == EdgesAfter(old(layoutEdges), LastSeen(old(lastSeen), t), Seen(t.id, t.parentId), t in shown)
      ensures lastSeen == old(lastSeen)[t := Seen(t.id, t.parentId)]
      ensures updateRequested
    {
      if t in shown {
        if t in lastSeen && (lastSeen[t].id != t.id || lastSeen[t].parentId != t.parentId) {
          RemoveFromGraph(lastSeen[t].id, lastSeen[t].parentId);
          AddToGraph(t);
        }
        AddToGraph(t);
      } else {
        RemoveFromGraph(t.id, t.parentId);
      }
      lastSeen := lastSeen[t := Seen(t.id, t.parentId)];
    }

    /** The delete handler: the deleted task's node and edge go. */
    method OnDelTask(t: ReactiveTask)
      modifies this`layoutNodes, this`layoutEdges, this`updateRequested
      ensures layoutNodes == old(layoutNodes) - {t.id}
      ensures layoutEdges == DropEdge(old(layoutEdges), t.id, t.parentId)
      ensures updateRequested
    {
      RemoveFromGraph(t.id, t.parentId);
    }

    /**
     * The animation-frame callback: lay the graph out, then move each shown task
     * to its node's centre shifted to the top-left corner. It fails at the first
     * shown task with no node, before clearing the flag, so later requests are
     * ignored; otherwise every shown task is placed and the flag is cleared.
     * Either way, exactly the shown tasks before the first one with no node are
     * placed, and every other task keeps its target.
     */
    method RunFrame(layout: LayoutGraph -> map<int, Point>, shown: seq<ReactiveTask>) returns (completed: bool)
      requires PlacesAllNodes(layout) && updateRequested
      modifies (set t | t in shown)`posTarget, this`updateRequested
      ensures completed <==> forall t :: t in shown ==> t.id in layoutNodes
      ensures completed ==> !updateRequested
      ensures !completed ==> updateRequested
      ensures completed ==> forall t :: t in shown ==>
        t.posTarget == TopLeft(layout(LayoutGraph(layoutNodes, layoutEdges))[t.id], NodeWidth, t.elHeight)
      ensures completed <==> FirstMissing(shown, layoutNodes) == |shown|
      ensures forall j :: 0 <= j < FirstMissing(shown, layoutNodes) ==>
        shown[j].posTarget == TopLeft(layout(LayoutGraph(layoutNodes, layoutEdges))[shown[j].id], NodeWidth, shown[j].elHeight)
      ensures forall t :: t in shown && t !in shown[..FirstMissing(shown, layoutNodes)] ==> t.posTarget == old(t.posTarget)
    {
      var placed := layout(LayoutGraph(layoutNodes, layoutEdges));
      ghost var missing := FirstMissing(shown, layoutNodes);
      var i := 0;
      while i < |shown|
        invariant 0 <= i <= |shown| && updateRequested
        invariant forall j :: 0 <= j < i ==> shown[j].id in layoutNodes
        invariant i <= missing
        invariant forall j :: 0 <= j < i ==> shown[j].posTarget == TopLeft(placed[shown[j].id], NodeWidth, shown[j].elHeight)
        invariant forall t :: t in shown && t !in shown[..i] ==> t.posTarget == old(t.posTarget)
      {
        var t := shown[i];
        if t.id !in layoutNodes {
          return false;
        }
        t.posTarget := TopLeft(placed[t.id], NodeWidth, t.elHeight);
        i := i + 1;
      }
      updateRequested := false;
      return true;
    }
  }

  /** The index of the first task in `shown` with no node in `nodes`, or `|shown|` when every one has a node. */
  function FirstMissing(shown: seq<ReactiveTask>, nodes: map<int, Size>): (k: nat)
    reads (set t | t in shown)`id
    ensures k <= |shown|
    ensures forall j :: 0 <= j < k ==> shown[j].id in nodes
    ensures k < |shown| ==> shown[k].id !in nodes
  {
    if shown == [] || shown[0].id !in nodes then 0 else 1 + FirstMissing(shown[1..], nodes)
  }

  /** The effect's view of `lastId`/`lastParentId`: `None` while both are undefined. */
  function LastSeen(lastSeen: map<ReactiveTask, Seen>, t: ReactiveTask): (r: Option<Seen>)
    ensures r.Some? <==> t in lastSeen
  {
    if t in lastSeen then Some(lastSeen[t]) else None
  }

  /**
   * Requests coalesce: after one request, further requests change nothing until
   * the frame callback clears the flag.
   */
  method CoalescingScenario() returns (flags: seq<bool>)
    ensures flags == [true, true, false, true]
  {
    var g := new UseTasksGraphLayout();
    g.RequestUpdate();
    var first := g.updateRequested;
    g.RemoveFromGraph(3, Some(1));
    var second := g.updateRequested;
    var layout := (lg: LayoutGraph) => map id | id in lg.nodes :: Point(0.0, 0.0);
    var done := g.RunFrame(layout, []);
    var third := g.updateRequested;
    g.RequestUpdate();
    flags := [first, second, third, g.updateRequested];
  }
}
