/**
 * `TasksGraphLayout` (src/lib/composables/TasksGraphLayout.svelte.ts): the
 * class-based graph view over a `TasksSet`. It keeps one `GraphTask` per task
 * object, exposes the visible tasks' flow nodes and edges, and runs a layout
 * pass that feeds the visible tasks to the layered-layout library and writes the
 * resulting top-left positions back into the tasks.
 */
module TasksGraphLayouts {
  import opened Options
  import opened OrderedSets
  import opened Events
  import opened Layout
  import opened Flow
  import opened Tasks
  import opened GraphTasks
  import opened TasksSets

  class TasksGraphLayout {
    var graphTasks: map<Task, GraphTask>

    /** Each entry wraps its own key. */
    ghost predicate Valid()
      reads this, graphTasks.Values
    {
      forall t :: t in graphTasks ==> graphTasks[t].task == t
    }

    constructor ()
      ensures Valid() && graphTasks == map[]
    {
      graphTasks := map[];
    }

    /** The `taskEffect` handler: a new graph entry for the task, replacing any earlier one. */
    method OnTaskAdded(t: Task) returns (g: GraphTask)
      requires Valid()
      modifies this`graphTasks
      ensures Valid()
      ensures fresh(g) && g.task == t && g.width == 0.0 && g.height == 0.0
      ensures graphTasks == old(graphTasks)[t := g]
    {
      g := new GraphTask(t);
      graphTasks := graphTasks[t := g];
    }

    /** The `onDel` handler. */
    method OnTaskDeleted(t: Task)
      requires Valid()
      modifies this`graphTasks
      ensures Valid()
      ensures graphTasks == old(graphTasks) - {t}
    {
      graphTasks := graphTasks - {t};
    }

    /** The add handler run on the tasks under `keys`, in that order. */
    method AddEach(items: map<int, Task>, keys: seq<int>)
      requires Valid() && forall i :: 0 <= i < |keys| ==> keys[i] in items
      modifies this`graphTasks
      ensures Valid()
      ensures graphTasks.Keys == old(graphTasks.Keys) + TasksAt(items, keys)
      ensures forall t :: t in TasksAt(items, keys) ==>
        fresh(graphTasks[t]) && graphTasks[t].width == 0.0 && graphTasks[t].height == 0.0
      ensures forall t :: t in old(graphTasks) && t !in TasksAt(items, keys) ==> graphTasks[t] == old(graphTasks[t])
    {
      var i := 0;
      while i < |keys|
        invariant 0 <= i <= |keys|
        invariant Valid()
        invariant graphTasks.Keys == old(graphTasks.Keys) + TasksAt(items, keys[..i])
        invariant forall t :: t in TasksAt(items, keys[..i]) ==>
          fresh(graphTasks[t]) && graphTasks[t].width == 0.0 && graphTasks[t].height == 0.0
        invariant forall t :: t in old(graphTasks) && t !in TasksAt(items, keys[..i]) ==> graphTasks[t] == old(graphTasks[t])
      {
        TasksAtSnoc(items, keys, i);
        var _ := OnTaskAdded(items[keys[i]]);
        i := i + 1;
      }
      assert keys[..i] == keys;
    }

    /**
     * The constructor's registrations on the tasks set: `taskEffect` runs the add
     * handler on every stored task at once (in the returned order) and for every
     * later addition, and `onDel` registers the delete handler.
     */
    method Attach(tasksSet: TasksSet, onAddFn: HandlerId, onDelFn: HandlerId) returns (visited: seq<int>)
      requires Valid()
      modifies this`graphTasks, tasksSet`calls, tasksSet`addHandlers, tasksSet`delHandlers
      ensures Valid()
      ensures graphTasks.Keys == old(graphTasks.Keys) + tasksSet.tasks.Values
      ensures forall t :: t in tasksSet.tasks.Values ==>
        fresh(graphTasks[t]) && graphTasks[t].width == 0.0 && graphTasks[t].height == 0.0
      ensures forall t :: t in old(graphTasks) && t !in tasksSet.tasks.Values ==> graphTasks[t] == old(graphTasks[t])
      ensures NoDup(visited) && (forall k :: k in tasksSet.tasks ==> k in visited)
      ensures forall i :: 0 <= i < |visited| ==> visited[i] in tasksSet.tasks
      ensures tasksSet.calls == old(tasksSet.calls) + CallEach(onAddFn, tasksSet.tasks, visited)
      ensures tasksSet.addHandlers == old(tasksSet.addHandlers) + [onAddFn]
      ensures tasksSet.delHandlers == old(tasksSet.delHandlers) + [onDelFn]
    {
      visited := tasksSet.TaskEffect(onAddFn);
      AddEach(tasksSet.tasks, visited);
      TasksAtAllKeys(tasksSet.tasks, visited);
      tasksSet.OnDel(onDelFn);
    }

    /** `flowNodes`: the nodes of the visible tasks. */
    function FlowNodes(tasks: map<int, Task>, ghost depth: map<Task, nat>): (r: set<FlowNode<GraphTask>>)
      reads this, graphTasks.Keys, graphTasks.Values, tasks.Values
      requires Valid() && DepthRanked(tasks, depth) && forall t :: t in graphTasks ==> Below(tasks, depth, t)
      ensures forall t :: t in graphTasks && Visible(tasks, depth, t) ==> graphTasks[t].Node() in r
      ensures forall n :: n in r ==>
        && n.data.task in graphTasks && graphTasks[n.data.task] == n.data
        && Visible(tasks, depth, n.data.task) && n == n.data.Node()
    {
      set t | t in graphTasks && Visible(tasks, depth, t) :: graphTasks[t].Node()
    }

    /** `flowEdges`: the edges of the visible tasks that have a parent. */
    function FlowEdges(tasks: map<int, Task>, ghost depth: map<Task, nat>): (r: set<FlowEdge>)
      reads this, graphTasks.Keys, graphTasks.Values, tasks.Values
      requires Valid() && DepthRanked(tasks, depth) && forall t :: t in graphTasks ==> Below(tasks, depth, t)
      ensures forall t :: t in graphTasks && Visible(tasks, depth, t) && t.parentId.Some? ==> graphTasks[t].Edge().value in r
      ensures forall e :: e in r ==> exists t :: t in graphTasks && Visible(tasks, depth, t) && graphTasks[t].Edge() == Some(e)
    {
      set t | t in graphTasks && Visible(tasks, depth, t) && graphTasks[t].Edge().Some? :: graphTasks[t].Edge().value
    }

    /**
     * With the view in step with the index, every edge ends at a node, and starts
     * at a node unless the parent id has no task.
     */
    lemma EdgesJoinNodes(tasks: map<int, Task>, depth: map<Task, nat>, t: Task)
      requires Valid() && DepthRanked(tasks, depth) && forall u :: u in graphTasks ==> Below(tasks, depth, u)
      requires forall k :: k in tasks ==> tasks[k] in graphTasks && tasks[k].id == k
      requires t in graphTasks && Visible(tasks, depth, t) && t.parentId.Some?
      ensures exists n :: n in FlowNodes(tasks, depth) && n.id == graphTasks[t].Edge().value.target
      ensures t.parentId.value in tasks ==>
        exists n :: n in FlowNodes(tasks, depth) && n.id == graphTasks[t].Edge().value.source
    {
      var nodes := FlowNodes(tasks, depth);
      assert graphTasks[t].Node() in nodes;
      var p := t.parentId.value;
      if p in tasks {
        VisibleParent(tasks, depth, t);
        assert graphTasks[tasks[p]].Node() in nodes;
        assert graphTasks[tasks[p]].Node().id == IntToString(p);
      }
    }

    /** Some visible graph task carries `id` and a measured height of `h`. */
    ghost predicate SizedBy(tasks: map<int, Task>, depth: map<Task, nat>, id: int, h: real)
      reads this, graphTasks.Values, graphTasks.Keys, tasks.Values
      requires DepthRanked(tasks, depth) && forall t :: t in graphTasks ==> Below(tasks, depth, t)
    {
      exists t :: t in graphTasks && Visible(tasks, depth, t) && t.id == id && h == graphTasks[t].height
    }

    /** Some visible graph task is the child end of `e` and names its parent end. */
    ghost predicate DrawnBy(tasks: map<int, Task>, depth: map<Task, nat>, e: (int, int))
      reads this, graphTasks.Keys, tasks.Values
      requires DepthRanked(tasks, depth) && forall t :: t in graphTasks ==> Below(tasks, depth, t)
    {
      exists t :: t in graphTasks && Visible(tasks, depth, t) && t.parentId == Some(e.0) && t.id == e.1
    }

    /**
     * The first loop of the layout effect: every visible task becomes a node of
     * width 600 and its measured height, and, when it has a parent id, an edge
     * from that id (whether or not the parent is shown). Tasks sharing an id
     * share one node, sized by one of them.
     */
    method BuildLayoutGraph(tasks: map<int, Task>, ghost depth: map<Task, nat>) returns (g: LayoutGraph)
      requires Valid() && DepthRanked(tasks, depth) && forall t :: t in graphTasks ==> Below(tasks, depth, t)
      ensures forall t :: t in graphTasks && Visible(tasks, depth, t) ==> t.id in g.nodes
      ensures forall id :: id in g.nodes ==>
        && g.nodes[id].width == NodeWidth
        && exists t :: t in graphTasks && Visible(tasks, depth, t) && t.id == id && g.nodes[id].height == graphTasks[t].height
      ensures forall t :: t in graphTasks && Visible(tasks, depth, t) && t.parentId.Some? ==> (t.parentId.value, t.id) in g.edges
      ensures forall e :: e in g.edges ==>
        exists t :: t in graphTasks && Visible(tasks, depth, t) && t.parentId == Some(e.0) && t.id == e.1
    {
      var nodes: map<int, Size> := map[];
      var edges: set<(int, int)> := {};
      var pending := graphTasks.Keys;
      while pending != {}
        invariant pending <= graphTasks.Keys
        invariant forall t :: t in graphTasks && Visible(tasks, depth, t) && t !in pending ==> t.id in nodes
        invariant forall id :: id in nodes ==> nodes[id].width == NodeWidth && SizedBy(tasks, depth, id, nodes[id].height)
        invariant forall t :: t in graphTasks && Visible(tasks, depth, t) && t !in pending && t.parentId.Some? ==> (t.parentId.value, t.id) in edges
        invariant forall e :: e in edges ==> DrawnBy(tasks, depth, e)
        decreases pending
      {
        ghost var someTask := ElementOf(pending);
        var t :| t in pending;
        pending := pending - {t};
        if !Visible(tasks, depth, t) {
          continue;
        }
        assert SizedBy(tasks, depth, t.id, graphTasks[t].height);
        nodes := nodes[t.id := Size(NodeWidth, graphTasks[t].height)];
        if t.parentId.Some? {
          assert DrawnBy(tasks, depth, (t.parentId.value, t.id));
          edges := edges + {(t.parentId.value, t.id)};
        }
      }
      g := LayoutGraph(nodes, edges);
    }

    /**
     * The second loop of the layout effect: each visible task's position becomes
     * its node's centre shifted to the top-left corner, using that task's own
     * height; hidden tasks keep their positions.
     */
    method PlaceTasks(tasks: map<int, Task>, ghost depth: map<Task, nat>, placed: map<int, Point>)
      requires Valid() && DepthRanked(tasks, depth) && forall t :: t in graphTasks ==> Below(tasks, depth, t)
      requires forall t :: t in graphTasks && Visible(tasks, depth, t) ==> t.id in placed
      modifies graphTasks.Keys`pos
      ensures forall t :: t in graphTasks ==>
        t.pos == if Visible(tasks, depth, t) then TopLeft(placed[t.id], NodeWidth, graphTasks[t].height) else old(t.pos)
    {
      ghost var shown := set t | t in graphTasks && Visible(tasks, depth, t);
      var pending := graphTasks.Keys;
      while pending != {}
        invariant pending <= graphTasks.Keys
        invariant forall t :: t in graphTasks ==>
          t.pos == if t !in pending && t in shown then TopLeft(placed[t.id], NodeWidth, graphTasks[t].height) else old(t.pos)
        decreases pending
      {
        ghost var someTask := ElementOf(pending);
        var t :| t in pending;
        pending := pending - {t};
        if !Visible(tasks, depth, t) {
          continue;
        }
        var centre := placed[t.id];
        t.pos := TopLeft(centre, NodeWidth, graphTasks[t].height);
      }
    }

    /** The layout effect, one run: build the graph, lay it out, write positions back. */
    method LayoutPass(tasks: map<int, Task>, ghost depth: map<Task, nat>, layout: LayoutGraph -> map<int, Point>)
      returns (g: LayoutGraph)
      requires Valid() && DepthRanked(tasks, depth) && forall t :: t in graphTasks ==> Below(tasks, depth, t)
      requires PlacesAllNodes(layout)
      modifies graphTasks.Keys`pos
      ensures forall t :: t in graphTasks && Visible(tasks, depth, t) ==> t.id in g.nodes
      ensures forall t :: t in graphTasks ==>
        t.pos == if Visible(tasks, depth, t) then TopLeft(layout(g)[t.id], NodeWidth, graphTasks[t].height) else old(t.pos)
    {
      g := BuildLayoutGraph(tasks, depth);
      PlaceTasks(tasks, depth, layout(g));
    }
  }

  /** The tasks stored under `keys`. */
  function TasksAt(items: map<int, Task>, keys: seq<int>): (r: set<Task>)
    requires forall i :: 0 <= i < |keys| ==> keys[i] in items
    ensures forall i :: 0 <= i < |keys| ==> items[keys[i]] in r
    ensures forall t :: t in r ==> exists i :: 0 <= i < |keys| && items[keys[i]] == t
  {
    set i | 0 <= i < |keys| :: items[keys[i]]
  }

  /** One more key adds exactly the task stored under it. */
  lemma TasksAtSnoc(items: map<int, Task>, keys: seq<int>, i: nat)
    requires forall j :: 0 <= j < |keys| ==> keys[j] in items
    requires i < |keys|
    ensures TasksAt(items, keys[..i + 1]) == TasksAt(items, keys[..i]) + {items[keys[i]]}
  {
    assert keys[..i + 1] == keys[..i] + [keys[i]];
  }

  /** Visiting every key of a map visits every value. */
  lemma TasksAtAllKeys(items: map<int, Task>, keys: seq<int>)
    requires forall i :: 0 <= i < |keys| ==> keys[i] in items
    requires forall k :: k in items ==> k in keys
    ensures TasksAt(items, keys) == items.Values
  {
    forall t | t in items.Values
      ensures t in TasksAt(items, keys)
    {
      var k := KeyOf(items, t);
      var i :| 0 <= i < |keys| && keys[i] == k;
    }
  }
}
