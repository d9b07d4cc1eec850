/**
 * `GraphTask` (src/lib/composables/GraphTask.svelte.ts): a task's presence in the
 * class-based graph view. It holds the task, the rendered element's measured size
 * (written by the view, initially zero), and derives the task's flow node and
 * the edge from its parent.
 */
module GraphTasks {
  import opened Options
  import opened Layout
  import opened Flow
  import opened Tasks

  class GraphTask {
    const task: Task
    /** `elDimensions.width` */
    var width: real
    /** `elDimensions.height` */
    var height: real

    constructor (task: Task)
      ensures this.task == task && width == 0.0 && height == 0.0
    {
      this.task := task;
      width := 0.0;
      height := 0.0;
    }

    /** `flowNode`: a "task" node at the task's position, carrying this object. */
    function Node(): (n: FlowNode<GraphTask>)
      reads task`id, task`pos
      ensures n.id == IntToString(task.id) && n.kind == "task" && n.position == task.pos && n.data == this
    {
      FlowNode(IntToString(task.id), "task", task.pos, this)
    }

    /**
     * `flowEdge`: none for a root; otherwise an "ancestry" edge from the parent's
     * node id to this task's node id.
     */
    function Edge(): (e: Option<FlowEdge>)
      reads task`id, task`parentId
      ensures e.None? <==> task.parentId.None?
      ensures e.Some? ==>
        && e.value == FlowEdge(EdgeId(task.parentId.value, task.id), "ancestry", IntToString(task.parentId.value), IntToString(task.id))
        && e.value.target == Node().id
    {
      match task.parentId
      case None => None
      case Some(p) => Some(FlowEdge(EdgeId(p, task.id), "ancestry", IntToString(p), IntToString(task.id)))
    }
  }

  /** Tasks with different ids have different node ids. */
  lemma NodeIdsDiffer(g1: GraphTask, g2: GraphTask)
    requires g1.task.id != g2.task.id
    ensures g1.Node().id != g2.Node().id
  {
    if g1.Node().id == g2.Node().id {
      IntToStringInjective(g1.task.id, g2.task.id);
    }
  }

  /** Two edges share an id only when they join the same parent id to the same task id. */
  lemma EdgeIdsDiffer(g1: GraphTask, g2: GraphTask)
    requires g1.Edge().Some? && g2.Edge().Some?
    requires g1.Edge().value.id == g2.Edge().value.id
    ensures g1.task.parentId == g2.task.parentId && g1.task.id == g2.task.id
  {
    EdgeIdInjective(g1.task.parentId.value, g1.task.id, g2.task.parentId.value, g2.task.id);
  }
}
