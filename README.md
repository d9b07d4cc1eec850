# ouroboard task-tree engine, modelled in Dafny

ouroboard is a task board. Tasks form a tree: each task may name a parent id.
The browser client keeps every loaded task in an index keyed by id, plus a
child index from parent id to the set of child ids. From those two maps it
derives a task's hour totals, whether it is done, whether it is visible, and
its ancestor chain. It lays the visible tasks out left to right with a
layered-graph library and hands them to the renderer as nodes and edges. A
sorter files each visible task into one of several caller-owned buckets.
Small event primitives join the parts: an event source, a map and a set that
emit events.

This project models that engine in Dafny 4.11 and proves properties of the
model. It also models the server's task-list endpoint, which post-processes
the database rows it returns.

One module per source file:

| module | source file | what it holds |
|---|---|---|
| `Events` | `EventSource.ts`, `useEvent.svelte.ts` | the handler set (an insertion-ordered, duplicate-free `seq`) and the log of handler calls |
| `EventMaps`, `EventSets` | `EventMap.svelte.ts`, `EventSet.svelte.ts` | a map and a set whose emissions are an append-only event log |
| `Tasks` | `Task.svelte.ts` | class `Task`; totals, done, visibility, ancestors and the re-filing effect as functions over the index maps |
| `TasksSets`, `UseTasksSets` | `TasksSet.svelte.ts`, `useTasksSet.svelte.ts` | the class and the closure forms of the client index |
| `GraphTasks`, `TasksGraphLayouts` | `GraphTask.svelte.ts`, `TasksGraphLayout.svelte.ts` | the renderer's node and edge for a task, and the layout pass over graph tasks |
| `TasksSorters` | `useTasksSorter.svelte.ts` | bucket filing and bucket-change events |
| `UseTasks` | `useTasks.svelte.ts` | class `ReactiveTask`; the index that owns its layout graph, with the deferred relayout pass |
| `UseTasksGraphLayouts` | `useTasksGraphLayout.svelte.ts` | the per-task graph effect and the once-per-frame layout |
| `Stores` | `src/routes/store.svelte.ts` | the older module-level store, with the memoised invisible-ancestor filter |
| `TaskList` | `src/routes/api/task/list/+server.ts` | the list endpoint's row indexing, trashed-ancestor check and output shaping |
| `Options`, `OrderedSets`, `ChildIndex`, `Flow`, `Layout` | shared | `Option`; JavaScript `Set` semantics; child-index link and unlink; decimal ids and edge ids; the layout-library boundary |

How the source's mechanisms appear in the model:

- **Mutable objects.** Objects whose fields the source assigns are classes.
  Each method has a field-granular `modifies` clause and states the new value
  of every field it changes. The one exception is a pass that throws part-way
  (see "## Left out").
- **Derived values.** Svelte `$derived` values are functions of the index
  maps.
- **Effects.** A Svelte effect is an explicit method. The caller invokes it
  once per run, and any state its closure keeps is a field.
- **Acyclicity.** The source terminates only on acyclic parent and child
  links. Ghost rank maps make that assumption explicit: `depth` puts a parent
  below its child, and `height` puts a child below its parent.
- **The layout library.** `Dagre.layout` followed by `graph.node(id)` is a
  function parameter `layout: LayoutGraph -> map<int, Point>`.
  `Layout.PlacesAllNodes` says that function places every node it is given.
- **Event handlers.** Handlers are opaque ids. Invoking one appends a `Call`
  to a log, and the handler's own effect is a separate method.

## Model

| member | source | states |
|---|---|---|
| `OrderedSets.Add` | src/lib/composables/EventSource.ts:9 | `add` of a member changes nothing; `add` of a new member appends it at the end, so the result has no duplicates and keeps insertion order |
| `OrderedSets.Remove` | src/lib/composables/EventSource.ts:12 | `delete` removes exactly that member, keeps every other one, shrinks the set by one when it was present and is a no-op otherwise |
| `OrderedSets.RemoveKeepsOrder` | src/lib/composables/EventSource.ts:12 | removing one member keeps the relative order of every two remaining members |
| `Events.FanOut` | src/lib/composables/EventSource.ts:16-20 | an emit makes exactly one call per registered handler |
| `Events.FanOutInOrder` | src/lib/composables/EventSource.ts:17-19 | the i-th call goes to the i-th handler in registration order, with the emitted arguments |
| `Events.FanOutSnoc` | src/lib/composables/useEvent.svelte.ts:17-21 | a handler registered last is called last, after all the earlier ones |
| `Events.FanOutOncePerHandler` | src/lib/composables/EventSource.ts:8-20 | with a duplicate-free handler set, every registered handler is called exactly once per emit and an unregistered one never |
| `Events.FanOutCountsRegistrations` | src/lib/composables/EventSource.ts:8-20 | when one function is registered through several wrapper closures, each emit calls it once per registration |
| `Events.CallsTo` | src/lib/composables/EventSource.ts:16-20 | the number of logged calls to a handler is at most the log's length, and zero exactly when no call in the log goes to it |
| `Events.CallEach` | src/lib/composables/TasksSet.svelte.ts:64-66 | the call log of running a function on the values under a key sequence: one call per key, with that key's stored value |
| `Events.CallEachSnoc` | src/lib/composables/TasksSet.svelte.ts:64-66 | visiting one more key appends exactly the call for that key's value |
| `Events.CallOnEachValue` | src/lib/composables/TasksSet.svelte.ts:64-66 | the loop over a map's values visits every key exactly once and calls the function once with each stored value |
| `Events.EventSource.constructor` | src/lib/composables/EventSource.ts:5-6 | a new source has no handlers and has made no calls |
| `Events.EventSource.On` | src/lib/composables/EventSource.ts:8-10 | `on(h)` adds h to the handler set; registering the same handler again changes nothing |
| `Events.EventSource.Teardown` | src/lib/composables/EventSource.ts:11-13 | the component teardown removes exactly that handler and keeps the others in order |
| `Events.EventSource.Emit` | src/lib/composables/EventSource.ts:16-20 | `emit(args)` appends one call per handler, in registration order, to the call log |
| `Events.RegistrationScenario` | src/lib/composables/useEvent.svelte.ts:9-21 | h1 and h2 registered, h1 torn down between two emits: the calls are h1(a), h2(a), h2(b) |
| `ChildIndex.Link` | src/lib/composables/TasksSet.svelte.ts:28-37 | linking to no parent changes nothing; otherwise the child joins the parent's set, a set is created for a new parent, other parents keep theirs, and sets stay duplicate-free |
| `ChildIndex.Unlink` | src/lib/composables/TasksSet.svelte.ts:19-26 | unlinking from no parent, or from a parent with no set, changes nothing; otherwise only the child leaves that parent's set, which is kept even when it becomes empty |
| `ChildIndex.LinkMembership` | src/lib/composables/TasksSet.svelte.ts:28-37 | after a link, c is listed under q exactly when it was before or it is the linked child and q its parent |
| `ChildIndex.UnlinkUndoesLink` | src/lib/composables/TasksSet.svelte.ts:19-37 | unlinking a child that a link just added restores the index, except that a set the link created stays behind, empty |
| `ChildIndex.RemoveAfterAdd` | src/lib/composables/TasksSet.svelte.ts:24 | deleting a member just appended to a set gives back the original set |
| `ChildIndex.LinkKeepsLinked` | src/lib/composables/TasksSet.svelte.ts:28-37 | a link keeps every child listed under its parent, and lists the linked child under its parent |
| `ChildIndex.UnlinkKeepsLinked` | src/lib/composables/TasksSet.svelte.ts:19-26 | an unlink keeps every other child-parent pair listed |
| `ChildIndex.DropKeepsLinked` | src/lib/composables/TasksSet.svelte.ts:60 | dropping a parent's child set keeps every child of other parents listed |
| `EventMaps.EventMap.constructor` | src/lib/composables/EventMap.svelte.ts:5-8 | a new map is empty and has emitted nothing |
| `EventMaps.EventMap.Get` | src/lib/composables/EventMap.svelte.ts:35-37 | `get` returns the stored value exactly when the key is present |
| `EventMaps.EventMap.Has` | src/lib/composables/EventMap.svelte.ts:39-41 | `has` holds exactly when `get` finds a value |
| `EventMaps.EventMap.Delete` | src/lib/composables/EventMap.svelte.ts:25-33 | deleting an absent key changes nothing and emits nothing; deleting a present key removes it and emits one delete event with the removed value |
| `EventMaps.EventMap.Set` | src/lib/composables/EventMap.svelte.ts:18-23 | `set` stores the value, emits a delete event for an overwritten value first, then exactly one add event, and keeps every other key |
| `EventMaps.PayloadsSnoc` | src/lib/composables/EventMap.svelte.ts:10-16 | an `onAdd` handler sees exactly the add events, and an `onDelete` handler exactly the delete events, in emission order |
| `EventMaps.PayloadsFromEvents` | src/lib/composables/EventMap.svelte.ts:10-16 | every payload an `onAdd` or `onDelete` handler receives comes from an emitted event of its kind, and there are no more payloads than events |
| `EventMaps.Populate` | src/lib/composables/EventMap.svelte.test.ts:19-28 | the test's `populate` sequence on a fresh map gives the expected contents and the ten-event stream |
| `EventMaps.PopulatePayloads` | src/lib/composables/EventMap.svelte.test.ts:19-141 | the `populate` event stream yields exactly the add and delete payloads the test expects, in order |
| `EventMaps.PopulateTrace` | src/lib/composables/EventMap.svelte.test.ts:19-141 | the test's expectations: the seven add payloads, the three delete payloads, and the `has`/`get` answers for present and absent keys |
| `EventSets.EventSet.constructor` | src/lib/composables/EventSet.svelte.ts:5-8 | a new set is empty and has emitted nothing |
| `EventSets.EventSet.Has` | src/lib/composables/EventSet.svelte.ts:30-32 | `has` is membership |
| `EventSets.EventSet.Add` | src/lib/composables/EventSet.svelte.ts:18-22 | `add` inserts the item and always emits an add event, even when the item was already there |
| `EventSets.EventSet.Delete` | src/lib/composables/EventSet.svelte.ts:24-28 | `delete` removes the item and always emits a delete event, even when it was absent |
| `EventSets.UnconditionalEvents` | src/lib/composables/EventSet.svelte.ts:18-28 | delete of an absent item, then add twice: the set holds the item once and the three events are all emitted |
| `Flow.NatToString` | src/lib/composables/GraphTask.svelte.ts:13 | a natural number's decimal text is non-empty and all digits |
| `Flow.ParseNatToString` | src/lib/composables/GraphTask.svelte.ts:13 | reading the decimal text back gives the number |
| `Flow.IntToString` | src/lib/composables/GraphTask.svelte.ts:13 | `toString()` of an id is non-empty, starts with '-' exactly for a negative id, and is digits after that |
| `Flow.ParseIntToString` | src/lib/composables/GraphTask.svelte.ts:13 | reading an id's text back gives the id |
| `Flow.IntToStringInjective` | src/lib/composables/GraphTask.svelte.ts:13 | two ids with the same text are equal, so node ids never collide |
| `Flow.EdgeId` | src/lib/composables/GraphTask.svelte.ts:23 | an edge id `e{parent}-{child}` starts with 'e' and has at least four characters |
| `Flow.EdgeIdParts` | src/lib/composables/GraphTask.svelte.ts:23 | an edge id splits back into the parent's numeral, ending at the first dash after its sign, and the child's numeral after it |
| `Flow.EdgeIdInjective` | src/lib/composables/GraphTask.svelte.ts:23 | two equal edge ids name the same parent and the same child, even with negative ids |
| `Layout.TopLeft` | src/lib/composables/useTasks.svelte.ts:312-315 | the written position is the node's centre moved back by half its width and half its height |
| `GraphTasks.GraphTask.constructor` | src/lib/composables/GraphTask.svelte.ts:30-32 | a graph task wraps its task and starts with zero element dimensions |
| `GraphTasks.GraphTask.Node` | src/lib/composables/GraphTask.svelte.ts:12-17 | the node has the task id's text as id, type "task", the task's position and the graph task as data |
| `GraphTasks.GraphTask.Edge` | src/lib/composables/GraphTask.svelte.ts:19-28 | a root has no edge; any other task has the edge `e{parent}-{id}` of type "ancestry" from its parent to itself |
| `GraphTasks.NodeIdsDiffer` | src/lib/composables/GraphTask.svelte.ts:12-17 | tasks with different ids get different node ids |
| `GraphTasks.EdgeIdsDiffer` | src/lib/composables/GraphTask.svelte.ts:19-28 | two edges with the same id belong to tasks with the same id and the same parent |
| `Tasks.Task.constructor` | src/lib/composables/Task.svelte.ts:96-121 | every field is copied from the server record, and the position starts at the origin |
| `Tasks.HrTotal` | src/lib/composables/Task.svelte.ts:24-50 | a task with no child set totals its own hours |
| `Tasks.ChildSum` | src/lib/composables/Task.svelte.ts:26-30 | the sum over no children is zero |
| `Tasks.TotalBoundsParts` | src/lib/composables/Task.svelte.ts:24-50 | with non-negative hours in the subtree, a total is at least the task's own hours, and at least each loaded child's total |
| `Tasks.ChildSumBoundsParts` | src/lib/composables/Task.svelte.ts:26-30 | with non-negative hours, the children's sum is non-negative and at least each loaded child's total |
| `Tasks.MissingChildrenAddNothing` | src/lib/composables/Task.svelte.ts:28 | child ids with no loaded task contribute zero (`?? 0`) |
| `Tasks.ThreeLevelTotals` | src/lib/composables/Task.svelte.ts:24-50 | a chain root 1, child 2, grandchild 3 with 1, 2 and 3 completed hours is acyclic and rolls up to completed totals 6, 5 and 3 |
| `Tasks.Done` | src/lib/composables/Task.svelte.ts:52 | done exactly when the completed total is positive and the remaining total is zero |
| `Tasks.DoneMeansNothingRemains` | src/lib/composables/Task.svelte.ts:52 | with non-negative hours, a done task has no own remaining hours and neither has any loaded child's subtree |
| `Tasks.IsParent` | src/lib/composables/Task.svelte.ts:75-80 | a task is a parent exactly when it has a non-empty child set |
| `Tasks.Visible` | src/lib/composables/Task.svelte.ts:54-74 | a visible task is neither cleared nor trashed, roots included |
| `Tasks.VisibleIffChainShown` | src/lib/composables/Task.svelte.ts:54-74 | visible exactly when neither the task nor any loaded ancestor is cleared or trashed and no loaded ancestor hides its children |
| `Tasks.VisibleParent` | src/lib/composables/Task.svelte.ts:63-73 | a visible task's loaded parent is visible and does not hide its children |
| `Tasks.Ancestors` | src/lib/composables/Task.svelte.ts:82-94 | the ancestor walk is no longer than the rank bound |
| `Tasks.AncestorsChain` | src/lib/composables/Task.svelte.ts:82-94 | the ancestors are loaded tasks, root first: the last is the parent, the first has no loaded parent, and each is the loaded parent of the next |
| `Tasks.Reversed` | src/lib/composables/Task.svelte.ts:93 | `toReversed()`: element i of the result is element n-1-i of the input |
| `Tasks.AncestorTasks` | src/lib/composables/Task.svelte.ts:82-94 | the imperative walk (push while climbing, stop at a root or a missing id, then reverse) returns the ancestor chain |
| `Tasks.Refiled` | src/lib/composables/Task.svelte.ts:122-141 | the re-filing effect deletes the entry under the remembered id, unlinks from the remembered parent, then stores the task under its id and links it to its parent; other entries and other parents' sets are untouched |
| `Tasks.RefiledKeysMatch` | src/lib/composables/Task.svelte.ts:126-140 | when only the remembered id's entry was stale, re-filing restores "every task is stored under its own id" |
| `Tasks.RefiledLinked` | src/lib/composables/Task.svelte.ts:126-140 | when every entry other than those under the task's new and remembered ids was listed in its parent's child set, after re-filing every stored task is listed, the task itself included |
| `TasksSets.TasksSet.constructor` | src/lib/composables/TasksSet.svelte.ts:7-9 | a new index is empty, with no handlers and no calls, so every task is trivially listed in its parent's child set |
| `TasksSets.TasksSet.OnAdd` | src/lib/composables/TasksSet.svelte.ts:11-13 | each registration adds a new wrapper closure, so the same function registered twice is called twice |
| `TasksSets.TasksSet.OnDel` | src/lib/composables/TasksSet.svelte.ts:15-17 | likewise for delete handlers |
| `TasksSets.TasksSet.TeardownAdd` | src/lib/composables/EventSource.ts:11-13 | the teardown of one `onAdd` registration (TasksSet.svelte.ts:11-13) removes exactly that wrapper closure: its function loses one registration and the others stay in order |
| `TasksSets.TasksSet.TeardownDel` | src/lib/composables/EventSource.ts:11-13 | likewise for one `onDel` registration (TasksSet.svelte.ts:15-17) |
| `TasksSets.TasksSet.UnlinkFromParent` | src/lib/composables/TasksSet.svelte.ts:19-26 | the child index becomes its `Unlink`, and stays duplicate-free |
| `TasksSets.TasksSet.LinkToParent` | src/lib/composables/TasksSet.svelte.ts:28-37 | the child index becomes its `Link`, and stays duplicate-free |
| `TasksSets.TasksSet.DeleteEntry` | src/lib/composables/TasksSet.svelte.ts:59 | the task map's `delete` removes the key and reports the stored task to the delete handlers only when the key was present |
| `TasksSets.TasksSet.SetEntry` | src/lib/composables/TasksSet.svelte.ts:47 | the task map's `set` reports a displaced task as deleted, then the new task as added |
| `TasksSets.TasksSet.AddTask` | src/lib/composables/TasksSet.svelte.ts:39-51 | `addTask` builds a task mirroring the record, stores it under its id (reporting a displaced task as deleted first), links it to its parent and reports it as added; every task that was listed in its parent's child set stays listed, and so does the new one |
| `TasksSets.TasksSet.GetTask` | src/lib/composables/TasksSet.svelte.ts:53-55 | `getTask` finds a task exactly when one is stored under the id |
| `TasksSets.TasksSet.DelTask` | src/lib/composables/TasksSet.svelte.ts:57-61 | `delTask` unlinks the task from its parent, removes it and its own child set, and reports the stored task only when its id was present; every remaining task whose parent is not the deleted task stays listed in its parent's child set, while a child of the deleted task is left unlisted because that child set is dropped |
| `TasksSets.TasksSet.TaskEffect` | src/lib/composables/TasksSet.svelte.ts:63-75 | `taskEffect` calls the function once on every stored task and registers it for future additions |
| `TasksSets.TasksSet.ReindexEffect` | src/lib/composables/Task.svelte.ts:125-141 | the task's effect does nothing when id and parent are unchanged; otherwise the maps become `Refiled` and the remembered pair is updated, keeping every key equal to its task's id; when nothing changed, every listed task stays listed; otherwise, when every other entry was listed and only the remembered entry was stale, every stored task ends up listed in its parent's child set |
| `TasksSets.ReparentScenario` | src/lib/composables/Task.svelte.ts:125-141 | with one add and one delete handler registered, task 5 added as a root and then moved under 2 is stored once and listed only under 2, and the only call is the add handler's, with that task: the effect emits nothing |
| `TasksSets.TeardownScenario` | src/lib/composables/TasksSet.svelte.ts:11-17 | a function registered twice through `onAdd` and once through `onDel`, after one add and the delete registration are torn down, is called once by an add event |
| `UseTasksSets.UseTasksSet.constructor` | src/lib/composables/useTasksSet.svelte.ts:10-37 | a new index is empty, with no handlers and no calls, so every task is trivially listed in its parent's child set |
| `UseTasksSets.UseTasksSet.OnAddTask` | src/lib/composables/useTasksSet.svelte.ts:65-67 | the handler itself joins the add event's handler set; registering it directly twice has no effect, while a `taskEffect` wrapper around it is a separate closure and does not stop it joining |
| `UseTasksSets.UseTasksSet.OnDelTask` | src/lib/composables/useTasksSet.svelte.ts:69-71 | likewise for the delete event |
| `UseTasksSets.UseTasksSet.TeardownAddTask` | src/lib/composables/useEvent.svelte.ts:12-14 | the teardown of an add-channel registration removes exactly that closure (a direct handler or one `taskEffect` wrapper) and keeps the others in order |
| `UseTasksSets.UseTasksSet.TeardownDelTask` | src/lib/composables/useEvent.svelte.ts:12-14 | the teardown of an `onDelTask` registration removes exactly that handler and keeps the others in order |
| `UseTasksSets.UseTasksSet.AddTask` | src/lib/composables/useTasksSet.svelte.ts:40-53 | `addTask` stores the new task under its id (overwriting without a delete event), links it and emits the add event once; every task that was listed in its parent's child set stays listed, and so does the new one |
| `UseTasksSets.UseTasksSet.GetTask` | src/lib/composables/useTasksSet.svelte.ts:55 | `getTask` finds a task exactly when one is stored under the id |
| `UseTasksSets.UseTasksSet.DelTask` | src/lib/composables/useTasksSet.svelte.ts:57-63 | `delTask` unlinks the task, removes it and its child set, and emits the delete event with the given task, even when its id was not stored; every remaining task whose parent is not the deleted task stays listed in its parent's child set, while a child of the deleted task is left unlisted because that child set is dropped |
| `UseTasksSets.UseTasksSet.TaskEffect` | src/lib/composables/useTasksSet.svelte.ts:73-85 | `taskEffect` calls the handler on every stored task and registers a new wrapper closure, distinct from every closure already in the set, for future additions |
| `UseTasksSets.Targets` | src/lib/composables/useTasksSet.svelte.ts:78-84 | each closure in the add set calls its handler: a direct handler itself, a wrapper the handler it wraps |
| `UseTasksSets.UseTasksSet.ReindexEffect` | src/lib/composables/Task.svelte.ts:125-141 | the task's effect on this index: nothing when id and parent are unchanged, otherwise re-filing under the current id and parent; when nothing changed, every listed task stays listed; otherwise, when every other entry was listed and only the remembered entry was stale, every stored task ends up listed in its parent's child set |
| `UseTasksSets.EventScenario` | src/lib/composables/useTasksSet.svelte.ts:40-71 | a handler registered twice is called once per event; an overwriting add reports only the new task; a delete reports the task it is given |
| `UseTasksSets.WrapperScenario` | src/lib/composables/useTasksSet.svelte.ts:65-84 | after `taskEffect(h)`, `onAddTask(h)` twice and `taskEffect(h)` again, one added task reaches h three times: once per wrapper and once for the direct registration |
| `UseTasksSets.TeardownScenario` | src/lib/composables/useEvent.svelte.ts:9-21 | after `taskEffect(h)`, `onAddTask(h)` and `onDelTask(h)`, tearing down the direct and the delete registrations leaves only the wrapper: an added and then deleted task reaches h exactly once |
| `TasksSorters.Sorting.Members` | src/lib/composables/useTasksSorter.svelte.ts:12 | a bucket with no recorded contents is empty |
| `TasksSorters.Sorting.Recorded` | src/lib/composables/useTasksSorter.svelte.ts:18 | `oldBuckets.get(task) ?? null` is the recorded bucket, if there is one |
| `TasksSorters.Sorting.Take` | src/lib/composables/useTasksSorter.svelte.ts:31 | `bucket?.delete(task)` takes the task out of that bucket only, keeping the order of the rest and the bucket free of duplicates |
| `TasksSorters.Sorting.Put` | src/lib/composables/useTasksSorter.svelte.ts:32 | `bucket?.add(task)` appends the task to that bucket when absent and changes nothing when present; other buckets are untouched and every bucket stays free of duplicates |
| `TasksSorters.Evaluated` | src/lib/composables/useTasksSorter.svelte.ts:16-42 | no event exactly when the task is shown, passes the filter and already sits in the chosen bucket; any event carries the recorded old bucket and the new one (null when hidden or filtered out); afterwards the record names the new bucket |
| `TasksSorters.EvaluatedKeepsInvariants` | src/lib/composables/useTasksSorter.svelte.ts:16-42 | every task in a bucket stays recorded as being in that bucket, and an exact record stays exact |
| `TasksSorters.EvaluatedPlacesTask` | src/lib/composables/useTasksSorter.svelte.ts:27-40 | after the effect, the task is in bucket b only if it is shown, passes and b was chosen, and exactly then from an exact record |
| `TasksSorters.EvaluatedTouchesOnlyTask` | src/lib/composables/useTasksSorter.svelte.ts:16-42 | no other task's bucket membership or record changes |
| `TasksSorters.Deleted` | src/lib/composables/useTasksSorter.svelte.ts:44-49 | the delete handler takes the task out of its bucket and emits (task, recorded bucket, null), but keeps the record |
| `TasksSorters.DeletedLeavesStaleRecord` | src/lib/composables/useTasksSorter.svelte.ts:44-49 | after deleting a recorded task, the record names a bucket the task is no longer in |
| `TasksSorters.AtMostOneBucket` | src/lib/composables/useTasksSorter.svelte.ts:16-42 | while the invariant holds, a task is in at most one bucket |
| `TasksSorters.TasksSorter.constructor` | src/lib/composables/useTasksSorter.svelte.ts:14 | a new sorter has no records, no buckets filled and no handlers |
| `TasksSorters.TasksSorter.OnBucketChange` | src/lib/composables/useTasksSorter.svelte.ts:55-57 | the handler joins the bucket-change handler set |
| `TasksSorters.TasksSorter.TeardownBucketChange` | src/lib/composables/useEvent.svelte.ts:12-14 | the teardown of an `onBucketChange` registration removes exactly that handler and keeps the others in order |
| `TasksSorters.TasksSorter.Evaluate` | src/lib/composables/useTasksSorter.svelte.ts:16-42 | one effect run: the state becomes `Evaluated`'s, the invariant is kept, and its event (if any) reaches every handler |
| `TasksSorters.TasksSorter.OnDelete` | src/lib/composables/useTasksSorter.svelte.ts:44-49 | the task leaves every bucket, and (task, recorded bucket, null) reaches every handler |
| `TasksSorters.MoveScenario` | src/lib/composables/useTasksSorter.svelte.ts:16-49 | sort into 1, re-evaluate unchanged, move to 2: two events with the stated buckets, and the task ends in bucket 2 only |
| `TasksSorters.HideDeleteScenario` | src/lib/composables/useTasksSorter.svelte.ts:16-49 | sort into 1, hide, delete: three events, the last two with no new bucket and the delete with no old bucket either, and the task ends in no bucket |
| `TasksGraphLayouts.TasksGraphLayout.constructor` | src/lib/composables/TasksGraphLayout.svelte.ts:10 | a new layout tracks no graph tasks |
| `TasksGraphLayouts.TasksGraphLayout.OnTaskAdded` | src/lib/composables/TasksGraphLayout.svelte.ts:66-68 | the added task gets a fresh graph task, replacing any earlier one |
| `TasksGraphLayouts.TasksGraphLayout.OnTaskDeleted` | src/lib/composables/TasksGraphLayout.svelte.ts:70-72 | the deleted task's graph task is dropped |
| `TasksGraphLayouts.TasksGraphLayout.AddEach` | src/lib/composables/TasksGraphLayout.svelte.ts:66-68 | running the handler over a key sequence gives each of those tasks a fresh graph task and leaves every other one alone |
| `TasksGraphLayouts.TasksGraphLayout.Attach` | src/lib/composables/TasksGraphLayout.svelte.ts:66-72 | wiring to an index gives every stored task a fresh graph task, visits each key once, and registers the add and delete handlers |
| `TasksGraphLayouts.TasksGraphLayout.FlowNodes` | src/lib/composables/TasksGraphLayout.svelte.ts:12-17 | the nodes are exactly the `flowNode`s of the graph tasks whose task is visible: each visible entry's node is in the set, and each node in the set is its own graph task's node, filed under its task, which is visible |
| `TasksGraphLayouts.TasksGraphLayout.FlowEdges` | src/lib/composables/TasksGraphLayout.svelte.ts:19-25 | the edges are exactly those of visible non-root tasks |
| `TasksGraphLayouts.TasksGraphLayout.EdgesJoinNodes` | src/lib/composables/TasksGraphLayout.svelte.ts:12-25 | every edge's target is a node, and with a loaded parent its source is a node too |
| `TasksGraphLayouts.TasksGraphLayout.BuildLayoutGraph` | src/lib/composables/TasksGraphLayout.svelte.ts:35-49 | the graph has a node for every visible task, sized 600 by its element height, and an edge from each visible task's parent to it |
| `TasksGraphLayouts.TasksGraphLayout.PlaceTasks` | src/lib/composables/TasksGraphLayout.svelte.ts:53-62 | each visible task's position becomes its node's top-left corner; hidden tasks keep theirs |
| `TasksGraphLayouts.TasksGraphLayout.LayoutPass` | src/lib/composables/TasksGraphLayout.svelte.ts:34-63 | one layout effect run places every visible task at its laid-out corner and leaves hidden tasks in place |
| `TasksGraphLayouts.TasksAt` | src/lib/composables/TasksGraphLayout.svelte.ts:66-68 | the tasks stored under a key sequence, both directions |
| `TasksGraphLayouts.TasksAtAllKeys` | src/lib/composables/TasksSet.svelte.ts:64-66 | visiting every key reaches every stored task |
| `TasksGraphLayouts.TasksAtSnoc` | src/lib/composables/TasksGraphLayout.svelte.ts:66-68 | visiting one more key adds exactly the task stored under it |
| `UseTasks.ReactiveTask.constructor` | src/lib/composables/useTasks.svelte.ts:110-151 | every field is copied from the record; the element height is 0 and the position target is the origin |
| `UseTasks.Own` | src/lib/composables/useTasks.svelte.ts:121-147 | a task's own hours: the latest entry's value (0 without one), or the first entry's sum; the estimate is undefined exactly when the history is empty |
| `UseTasks.HrTotal` | src/lib/composables/useTasks.svelte.ts:121-147 | a total fails when the task's own value fails; with no child set it is the task's own value |
| `UseTasks.ChildSum` | src/lib/composables/useTasks.svelte.ts:124-127 | the sum over no children is zero |
| `UseTasks.LatestTotalsDefined` | src/lib/composables/useTasks.svelte.ts:121-138 | the completed and remaining totals always have a value |
| `UseTasks.LatestChildSumDefined` | src/lib/composables/useTasks.svelte.ts:124-136 | the children's completed and remaining sums always have a value |
| `UseTasks.EstimateDefined` | src/lib/composables/useTasks.svelte.ts:139-147 | the original estimate has a value when every loaded task has at least one history entry |
| `UseTasks.EstimateChildSumDefined` | src/lib/composables/useTasks.svelte.ts:142-146 | likewise for the children's estimate sum |
| `UseTasks.Visible` | src/lib/composables/useTasks.svelte.ts:153-173 | `visible` as written: the root case comes before the clear/trashed test, then a missing parent shows the task, a parent hiding its children hides it, and otherwise it follows the parent (its properties are the lemmas below) |
| `UseTasks.VisibleRootsAndShown` | src/lib/composables/useTasks.svelte.ts:154-174 | a root is always visible, even when cleared or trashed; a visible non-root is neither cleared nor trashed |
| `UseTasks.Ancestors` | src/lib/composables/useTasks.svelte.ts:163-173 | the walk up the parent chain yields loaded tasks only |
| `UseTasks.VisibleIffChainShown` | src/lib/composables/useTasks.svelte.ts:154-174 | visible exactly when every non-root on the loaded chain is neither cleared nor trashed and no strict ancestor hides its children |
| `UseTasks.AncestorsRankBelow` | src/lib/composables/useTasks.svelte.ts:163-173 | every ancestor ranks below the walk's bound, so the walk ends |
| `UseTasks.ClearedRootVisible` | src/lib/composables/useTasks.svelte.ts:155-161 | a cleared and trashed root is still visible, because the root check comes first |
| `UseTasks.UseTasks.constructor` | src/lib/composables/useTasks.svelte.ts:81-104 | a new index and layout graph are empty, no pass is queued, and every task is trivially listed in its parent's child set |
| `UseTasks.UseTasks.RequestPass` | src/lib/composables/useTasks.svelte.ts:273-276 | `updateNodePositions` queues a pass, or does nothing when one is queued |
| `UseTasks.UseTasks.UnlinkFromParent` | src/lib/composables/useTasks.svelte.ts:325-334 | the child leaves the parent's set and the parent-child edge leaves the layout graph |
| `UseTasks.UseTasks.LinkToParent` | src/lib/composables/useTasks.svelte.ts:336-347 | the child joins the parent's set and the parent-child edge joins the layout graph |
| `UseTasks.UseTasks.AddTask` | src/lib/composables/useTasks.svelte.ts:382-388 | `addTask` stores a task mirroring the record under its id, links it and adds its edge; every task that was listed in its parent's child set stays listed, and so does the new one |
| `UseTasks.UseTasks.GetTask` | src/lib/composables/useTasks.svelte.ts:390 | `getTask` finds a task exactly when one is stored under the id |
| `UseTasks.UseTasks.DelTask` | src/lib/composables/useTasks.svelte.ts:392-399 | `delTask` unlinks the task, removes it, its child set, its edge and its node, and queues a pass; every remaining task whose parent is not the deleted task stays listed in its parent's child set, while a child of the deleted task is left unlisted because that child set is dropped |
| `UseTasks.UseTasks.SetParentId` | src/lib/composables/useTasks.svelte.ts:209-219 | an equal value changes nothing; otherwise the task moves from the old parent's set to the new one's, the layout edge from the old parent is removed and one from the new parent set, and a pass is queued; when the task is stored under its own id and no other key, every listed task stays listed |
| `UseTasks.UseTasks.SetId` | src/lib/composables/useTasks.svelte.ts:181-190 | the node moves from the old id to the new one with the task's height; the index maps are not touched |
| `UseTasks.UseTasks.SetElHeight` | src/lib/composables/useTasks.svelte.ts:256-267 | an equal value changes nothing; otherwise the node is resized and a pass is queued |
| `UseTasks.UseTasks.SyncChildEdges` | src/lib/composables/useTasks.svelte.ts:280-286 | one parent's loop: it throws only on a listed child that is missing, or visible under a missing parent; otherwise each listed edge is present exactly when both ends are shown, and no other edge changes |
| `UseTasks.UseTasks.Throwing` | src/lib/composables/useTasks.svelte.ts:281 | the loop's guard dereferences a missing task exactly in the throwing cases |
| `UseTasks.UseTasks.SyncEdges` | src/lib/composables/useTasks.svelte.ts:279-287 | the edge loop throws exactly when some listed pair hits a missing task; otherwise listed edges match "both ends shown" and unlisted edges are unchanged |
| `UseTasks.UseTasks.SyncNodes` | src/lib/composables/useTasks.svelte.ts:289-304 | the node loop gives each visible task a node sized 600 by its height, removes hidden tasks' nodes, leaves other ids alone, and collects exactly the visible tasks |
| `UseTasks.UseTasks.SyncNode` | src/lib/composables/useTasks.svelte.ts:292-303 | one task: it is collected exactly when visible, and its node is synced |
| `UseTasks.NodeStepKeepsOthers` | src/lib/composables/useTasks.svelte.ts:291-304 | one more step of the node loop: the new task is collected exactly when visible, and every node synced earlier stays synced, since ids are distinct |
| `UseTasks.UseTasks.SyncGraph` | src/lib/composables/useTasks.svelte.ts:279-304 | the edge and node loops of a pass that completes: a listed edge is kept exactly when both ends are indexed and visible, every task's node is synced, and the collected tasks are exactly the visible ones |
| `UseTasks.UseTasks.PlaceShown` | src/lib/composables/useTasks.svelte.ts:309-316 | each collected task's target becomes its node's top-left corner; every other task keeps its target |
| `UseTasks.UseTasks.RunPassAsWritten` | src/lib/composables/useTasks.svelte.ts:278-321 | the queued pass as written throws exactly when a listed pair hits a missing task, and then stays queued with nodes and targets unchanged; it never touches an edge no child set lists; a pass that does not throw clears the queue flag and leaves exactly the edges, nodes and top-left targets `RunPass` states |
| `UseTasks.UseTasks.RunPass` | src/lib/composables/useTasks.svelte.ts:278-321 | the corrected pass always clears the queue flag; listed edges match "both ends shown", nodes match visibility, visible tasks get their laid-out corner, hidden ones keep their target |
| `UseTasks.UseTasks.FlowNodes` | src/lib/composables/useTasks.svelte.ts:349-360 | the nodes are exactly those of the visible tasks, at their targets |
| `UseTasks.UseTasks.FlowEdges` | src/lib/composables/useTasks.svelte.ts:362-379 | the edges are exactly parent-to-child for every child id listed under a visible task |
| `UseTasks.EdgeToHiddenChild` | src/lib/composables/useTasks.svelte.ts:362-379 | under a visible parent that hides its children, the child is hidden but its edge is still listed |
| `UseTasks.OrphanWedgesRelayout` | src/lib/composables/useTasks.svelte.ts:279-320 | task 2 under an unloaded parent 1: the pass as written throws and stays queued forever; the corrected pass completes |
| `UseTasksGraphLayouts.DropEdge` | src/lib/composables/useTasksGraphLayout.svelte.ts:45-47 | removing a root's edge changes nothing; otherwise exactly that parent-child edge goes |
| `UseTasksGraphLayouts.WithEdge` | src/lib/composables/useTasksGraphLayout.svelte.ts:58-60 | adding a root's edge changes nothing; otherwise exactly that parent-child edge is added |
| `UseTasksGraphLayouts.NodesAfter` | src/lib/composables/useTasksGraphLayout.svelte.ts:71-86 | after the effect, a shown task has its sized node and a hidden one none; a moved shown task's old node is gone; other nodes are unchanged |
| `UseTasksGraphLayouts.EdgesAfter` | src/lib/composables/useTasksGraphLayout.svelte.ts:71-86 | after the effect, a shown non-root task has its edge and a hidden one has not |
| `UseTasksGraphLayouts.EffectSettles` | src/lib/composables/useTasksGraphLayout.svelte.ts:71-86 | re-running the effect with nothing changed leaves nodes and edges as they are |
| `UseTasksGraphLayouts.MovedTaskLeavesNothingBehind` | src/lib/composables/useTasksGraphLayout.svelte.ts:73-76 | after a change of id or parent, the old node and the old edge are gone |
| `UseTasksGraphLayouts.NodeOf` | src/lib/composables/useTasksGraphLayout.svelte.ts:96 | a task's node has its id's text, type "task", its target and the task as data |
| `UseTasksGraphLayouts.EdgeOf` | src/lib/composables/useTasksGraphLayout.svelte.ts:102-103 | a root has no edge; any other task has the ancestry edge from its parent |
| `UseTasksGraphLayouts.FlowNodes` | src/lib/composables/useTasksGraphLayout.svelte.ts:94-98 | one node per shown task, in order |
| `UseTasksGraphLayouts.FlowEdges` | src/lib/composables/useTasksGraphLayout.svelte.ts:100-105 | the edges are exactly those of the shown non-root tasks |
| `UseTasksGraphLayouts.LastSeen` | src/lib/composables/useTasksGraphLayout.svelte.ts:66-67 | the effect's remembered id and parent exist exactly after its first run |
| `UseTasksGraphLayouts.UseTasksGraphLayout.constructor` | src/lib/composables/useTasksGraphLayout.svelte.ts:16-20 | an empty graph, no update requested, no effect run |
| `UseTasksGraphLayouts.UseTasksGraphLayout.RequestUpdate` | src/lib/composables/useTasksGraphLayout.svelte.ts:21-26 | an update is requested, at most once until it runs |
| `UseTasksGraphLayouts.UseTasksGraphLayout.RemoveFromGraph` | src/lib/composables/useTasksGraphLayout.svelte.ts:42-50 | the node goes, the parent edge goes, and an update is requested |
| `UseTasksGraphLayouts.UseTasksGraphLayout.AddToGraph` | src/lib/composables/useTasksGraphLayout.svelte.ts:52-63 | the node is set with the task's height, the parent edge is added, and an update is requested |
| `UseTasksGraphLayouts.UseTasksGraphLayout.Effect` | src/lib/composables/useTasksGraphLayout.svelte.ts:71-86 | one effect run: nodes and edges become `NodesAfter`/`EdgesAfter` of the remembered pair, the pair is updated, and an update is requested |
| `UseTasksGraphLayouts.UseTasksGraphLayout.OnDelTask` | src/lib/composables/useTasksGraphLayout.svelte.ts:89-91 | a deleted task's node and edge leave the graph |
| `UseTasksGraphLayouts.UseTasksGraphLayout.RunFrame` | src/lib/composables/useTasksGraphLayout.svelte.ts:26-39 | the frame completes exactly when every shown task has a node, and then places each at its corner and clears the request; otherwise the request stays set. Either way the shown tasks before the first one with no node are placed, and every other task keeps its target |
| `UseTasksGraphLayouts.FirstMissing` | src/lib/composables/useTasksGraphLayout.svelte.ts:29-30 | the index of the first shown task with no node: every earlier task has one, and the one there has none |
| `UseTasksGraphLayouts.CoalescingScenario` | src/lib/composables/useTasksGraphLayout.svelte.ts:20-39 | two requests before a frame share it; the frame clears the flag and the next request sets it again |
| `Stores.StoreTask.constructor` | src/lib/server/db/schema.ts:3-15 | the store's task record holds the given id, `parent_id` and flags; `id`, `parent_id` and `clear` are the task table's columns, while `hidden` and `trashed` come from the server's task type, which is not part of this model and which the store reads at store.svelte.ts:100-102 |
| `Stores.TaskData.constructor` | src/routes/store.svelte.ts:56-82 | the task data wraps the task, with its target at the origin |
| `Stores.Invisible` | src/routes/store.svelte.ts:100-102 | invisible exactly when hidden, trashed or cleared |
| `Stores.HasInvisibleAncestor` | src/routes/store.svelte.ts:224-243 | a root answers false; an invisible non-root answers true; otherwise the loaded parent's answer, or failure at a missing parent |
| `Stores.HasInvisibleAncestorIffChain` | src/routes/store.svelte.ts:224-243 | true exactly when a non-root on the chain is invisible; otherwise false when the chain reaches a root, and failure when it stops at a missing id |
| `Stores.InvisibleRootShown` | src/routes/store.svelte.ts:233-234 | an invisible root is still shown, because the root check comes first |
| `Stores.HasInvisibleAncestorMemo` | src/routes/store.svelte.ts:224-243 | the memoised check agrees with the plain one and keeps the memo sound and growing |
| `Stores.NodeOf` | src/routes/store.svelte.ts:249-254 | a node carries the id's text, type "task", the target and the task data |
| `Stores.Store.constructor` | src/routes/store.svelte.ts:40 | the store starts empty, so every entry is trivially listed in its parent's child set |
| `Stores.Store.AddTask` | src/routes/store.svelte.ts:117-129 | `addTask` stores new task data under the id and links it to its parent; every task that was listed in its parent's child set stays listed, and so does the new one |
| `Stores.Store.GetTask` | src/routes/store.svelte.ts:131-133 | `getTask` finds task data exactly when some is stored under the id |
| `Stores.Store.DelTask` | src/routes/store.svelte.ts:135-145 | `delTask` removes the task and its child set, then unlinks it from its parent; every remaining task whose parent is not the deleted task stays listed in its parent's child set, while a child of the deleted task is left unlisted because that child set is dropped |
| `Stores.Store.SetNewTaskParent` | src/routes/store.svelte.ts:154-171 | an equal parent changes nothing; otherwise the task moves from the old parent's set to the new one's; when the stored entry under its id holds this task, every listed entry stays listed |
| `Stores.Store.FlowNodes` | src/routes/store.svelte.ts:221-257 | fails exactly when some check hits a missing parent; otherwise the nodes are exactly those of the tasks with no invisible ancestor |
| `Stores.Store.FlowEdges` | src/routes/store.svelte.ts:259-272 | the edges are exactly one per listed parent-child pair |
| `Stores.FlowEdgeIdsDistinct` | src/routes/store.svelte.ts:264 | different pairs get different edge ids |
| `Stores.Store.BuildGraph` | src/routes/store.svelte.ts:190-206 | the graph's edges are exactly the listed pairs, and it has a 300 by 150 node per task |
| `Stores.Store.UpdateNodePositions` | src/routes/store.svelte.ts:189-219 | every task's target becomes its node's top-left corner |
| `TaskList.IndexRows` | src/routes/api/task/list/+server.ts:15 | the row map has every row's id as a key, and each entry is a row stored under its own id |
| `TaskList.IndexRowsDistinct` | src/routes/api/task/list/+server.ts:15 | with distinct ids, each row is found under its id |
| `TaskList.HasTrashedAncestor` | src/routes/api/task/list/+server.ts:18-36 | a root answers false; a row whose parent was not returned answers true |
| `TaskList.TrashedIffWalkLeaves` | src/routes/api/task/list/+server.ts:18-36 | true exactly when the walk up the returned rows ends at a row that still names a parent |
| `TaskList.HasTrashedAncestorMemo` | src/routes/api/task/list/+server.ts:18-36 | the memoised check agrees with the plain one and keeps the memo sound and growing |
| `TaskList.Output` | src/routes/api/task/list/+server.ts:60-65 | each output keeps the task and takes the latest hours and the earliest entry's sum, with 0 for a missing join |
| `TaskList.ListTasks` | src/routes/api/task/list/+server.ts:59-66 | the output as written: one entry per row, in order |
| `TaskList.OrphanStillListed` | src/routes/api/task/list/+server.ts:18-65 | a row whose parent is trashed is still listed, although its check answers true |
| `TaskList.ListUntrashedTasks` | src/routes/api/task/list/+server.ts:39-40 | the corrected output lists exactly the rows with no trashed ancestor |
| `TaskList.UntrashedKeepsOrder` | src/routes/api/task/list/+server.ts:39-65 | the corrected output keeps the fetched order: of two listed entries, the earlier comes from an earlier row |
| `TaskList.UntrashedListIsClosed` | src/routes/api/task/list/+server.ts:18-40 | in the corrected output, a listed child's parent was returned and is listed too |

## Left out

- Map iteration order is not modelled: loops over a `Map` visit keys in an unspecified order. The order of a `Set` (handler sets, child sets, the sorter's buckets) is modelled as insertion order.
- The layout library is a function parameter. Its own behaviour is not modelled: the implicit endpoint nodes `setEdge` creates, the edges `removeNode` drops, and the coordinates it computes.
- The position animation (`usePos`, `PosData`, `startPosAnimation`, the easing) is not modelled. A position is its target.
- Svelte's scheduling is not modelled: when effects re-run, `tick`, `requestAnimationFrame`, and `$effect.root` disposal. Effects are methods the caller invokes.
- `onDestroy` timing is not modelled; each registration's teardown is an explicit method (`Events.EventSource.Teardown`, `TasksSets.TasksSet.TeardownAdd`, `TasksSets.TasksSet.TeardownDel`, `UseTasksSets.UseTasksSet.TeardownAddTask`, `UseTasksSets.UseTasksSet.TeardownDelTask`, `TasksSorters.TasksSorter.TeardownBucketChange`). The `EventMap` handlers that `TasksGraphLayouts.TasksGraphLayout.Attach` registers go through `TasksSet.onAdd`/`onDel`, so their teardown is `TeardownAdd`/`TeardownDel`.
- Database queries and the HTTP layer are not modelled. The list endpoint's input is the joined row sequence.
- Hours are `real`; floating-point rounding is not modelled.
- Cyclic parent or child links are excluded by the rank-map preconditions. On a cycle the source recurses without end.
- Other endpoints, the database schema and the API client are not modelled.
- The child-index `EventMap` of `TasksSet` emits events nobody subscribes to; it is a plain map.
- The store's hour totals are the same fold as `UseTasks.HrTotal` and are not modelled again.
- The plain setters for title, priority, `hideChildren` and `trashed` are field assignments; they have no methods of their own.
- `UseTasks.ReactiveTask`'s `alwaysExpanded` and `clear` are copied at creation, and reassigning the returned object's plain properties is not modelled.
- `useTasksGraphLayout` registers its per-task effect through `taskEffect`; the model calls `UseTasksGraphLayouts.UseTasksGraphLayout.Effect` directly.
- UseTasks.UseTasks.RunPass requires distinct task ids: with duplicate ids, whether the source reads a node it has just removed depends on the iteration order.
- UseTasks.UseTasks.RunPassAsWritten requires distinct task ids, for the same reason.
- UseTasks.UseTasks.RunPassAsWritten does not say which listed edges a throwing pass has already synced: that depends on the map's iteration order, which is not modelled.
- UseTasks.UseTasks.SyncEdges does not say which listed edges it synced before throwing, for the same reason.
- UseTasks.UseTasks.SyncChildEdges does not say which of the parent's edges it synced before the child that throws; it states only that edges of other pairs are untouched.
- `Tasks.Own`, `EventMaps.AddPayloads` and `EventMaps.DeletePayloads` are specification helpers without contracts of their own; the rows of `Tasks.HrTotal`, `EventMaps.PayloadsSnoc` and `EventMaps.PayloadsFromEvents` state what they mean.
- `useTasksGraphLayout` and `useTasksSorter` declare their `tasksSet` as the object `useTasks` returns (src/lib/composables/useTasksGraphLayout.svelte.ts:14, src/lib/composables/useTasksSorter.svelte.ts:10). That object has no `taskEffect` or `onDelTask` (src/lib/composables/useTasks.svelte.ts:381-407), and `ReactiveTask` has no `flowNode` or `flowEdge` (src/lib/composables/useTasks.svelte.ts:54-76). So the calls at src/lib/composables/useTasksGraphLayout.svelte.ts:65, 89, 96, 102 and src/lib/composables/useTasksSorter.svelte.ts:16, 44 name members the declared type does not have. The model assumes an index with the `useTasksSet` interface behind `tasksSet`, and gives the tasks the `GraphTask` rendering of `flowNode`/`flowEdge` (`UseTasksGraphLayouts.NodeOf` and `EdgeOf`).
- `initializeTasks` in the store (one `addTask` per task) is not modelled separately.
- Stores.Store.UpdateNodePositions states only the targets set by `setTarget`; the animation's last position is left out.

## Findings

| source | as written | input that shows it | evidently intended | confidence | as-written member | corrected member |
|---|---|---|---|---|---|---|
| src/lib/composables/useTasks.svelte.ts:279-320 | the edge loop dereferences `tasks.get(parentId)!` for a visible child whose parent is not loaded; the throw skips `relayoutQueued = false`, so no later pass is ever queued | task 2 with parent id 1 while task 1 is not loaded | a missing parent means the edge is not shown, and the pass completes | high (not executed) | UseTasks.OrphanWedgesRelayout | UseTasks.UseTasks.RunPass |
| src/routes/api/task/list/+server.ts:18-65 | `hasTrashedAncestor` is defined but never applied: its only use is commented out, so every untrashed row is returned | a row with parent id 1 while task 1 is trashed and so not returned | rows with a trashed ancestor are left out of the list | medium (not executed) | TaskList.OrphanStillListed | TaskList.ListUntrashedTasks |
