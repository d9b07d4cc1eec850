/**
 * The task-list endpoint's post-processing (src/routes/api/task/list/+server.ts):
 * what happens to the fetched rows once the query has returned. Each row is a
 * non-trashed task joined with its latest and its original hour snapshot.
 */
module TaskList {
  import opened Options

  /** The task columns the endpoint passes through. */
  datatype TaskRow = TaskRow(
    id: int, title: string, priority: Option<int>, parentId: Option<int>,
    hideChildren: bool, alwaysExpanded: bool, clear: bool, trashed: bool)

  datatype Snapshot = Snapshot(hrCompleted: real, hrRemaining: real)

  /** One fetched row: the task and its left-joined latest and original snapshots. */
  datatype Row = Row(task: TaskRow, latest: Option<Snapshot>, orig: Option<Snapshot>)

  /** One entry of the response: the task's columns plus three hour fields. */
  datatype OutTask = OutTask(task: TaskRow, hrCompleted: real, hrRemaining: real, hrEstimated: real)

  /** `tasksSet`: the rows by task id, a later row replacing an earlier one with the same id. */
  function IndexRows(rows: seq<Row>): (index: map<int, Row>)
    ensures KeysMatch(index) && forall k :: k in index ==> index[k] in rows
    ensures forall i :: 0 <= i < |rows| ==> rows[i].task.id in index
    decreases |rows|
  {
    if rows == [] then map[]
    else
      var last := rows[|rows| - 1];
      var rest := IndexRows(rows[..|rows| - 1]);
      assert forall r :: r in rows[..|rows| - 1] ==> r in rows;
      rest[last.task.id := last]
  }

  /** With distinct ids, each row is the index's entry for its id. */
  lemma {:induction false} IndexRowsDistinct(rows: seq<Row>)
    requires forall i, j :: 0 <= i < j < |rows| ==> rows[i].task.id != rows[j].task.id
    ensures forall i :: 0 <= i < |rows| ==> IndexRows(rows)[rows[i].task.id] == rows[i]
    decreases |rows|
  {
    if rows != [] {
      var init := rows[..|rows| - 1];
      IndexRowsDistinct(init);
      forall i | 0 <= i < |rows|
        ensures IndexRows(rows)[rows[i].task.id] == rows[i]
      {
        if i < |rows| - 1 {
          assert rows[i] == init[i];
        }
      }
    }
  }

  /** Each indexed row is stored under its own id. */
  predicate KeysMatch(index: map<int, Row>) {
    forall k :: k in index ==> index[k].task.id == k
  }

  /** The parent of each indexed row ranks below it. */
  ghost predicate DepthRanked(index: map<int, Row>, depth: map<int, nat>)
  {
    && index.Keys <= depth.Keys
    && forall k :: k in index && index[k].task.parentId.Some? && index[k].task.parentId.value in index ==>
         depth[index[k].task.parentId.value] < depth[k]
  }

  ghost function Reach(index: map<int, Row>, depth: map<int, nat>, pid: Option<int>): nat
    requires DepthRanked(index, depth)
  {
    if pid.Some? && pid.value in index then depth[pid.value] + 1 else 0
  }

  /**
   * `hasTrashedAncestor(data)`: false for a root, true when the parent id has no
   * fetched row (the parent is trashed or absent), otherwise the parent row's
   * answer.
   */
  function HasTrashedAncestor(index: map<int, Row>, ghost depth: map<int, nat>, row: Row): (r: bool)
    requires DepthRanked(index, depth)
    ensures row.task.parentId.None? ==> !r
    ensures row.task.parentId.Some? && row.task.parentId.value !in index ==> r
    decreases Reach(index, depth, row.task.parentId)
  {
    match row.task.parentId
    case None => false
    case Some(p) => if p !in index then true else HasTrashedAncestor(index, depth, index[p])
  }

  /** The fetched ancestors above parent id `pid`, root first, up to the first missing id. */
  ghost function Ancestors(index: map<int, Row>, depth: map<int, nat>, pid: Option<int>): (r: seq<Row>)
    requires DepthRanked(index, depth)
    ensures forall a :: a in r ==> a in index.Values
    decreases Reach(index, depth, pid)
  {
    match pid
    case None => []
    case Some(p) => if p !in index then [] else Ancestors(index, depth, index[p].task.parentId) + [index[p]]
  }

  /**
   * A row has a trashed ancestor exactly when the walk up from it leaves the
   * fetched rows before it reaches a root.
   */
  lemma {:induction false} TrashedIffWalkLeaves(index: map<int, Row>, depth: map<int, nat>, row: Row)
    requires DepthRanked(index, depth)
    ensures HasTrashedAncestor(index, depth, row) <==> (Ancestors(index, depth, row.task.parentId) + [row])[0].task.parentId.Some?
    decreases Reach(index, depth, row.task.parentId)
  {
    match row.task.parentId
    case None =>
    case Some(p) =>
      if p in index {
        var parent := index[p];
        TrashedIffWalkLeaves(index, depth, parent);
        var up := Ancestors(index, depth, parent.task.parentId);
        assert Ancestors(index, depth, row.task.parentId) + [row] == (up + [parent]) + [row];
      }
  }

  /** Each memoised answer agrees with a fresh evaluation. */
  ghost predicate MemoSound(index: map<int, Row>, depth: map<int, nat>, memo: map<int, bool>)
    requires DepthRanked(index, depth)
  {
    forall id :: id in memo ==> id in index && memo[id] == HasTrashedAncestor(index, depth, index[id])
  }

  /**
   * `hasTrashedAncestor` with the memo table `hasTrashedAncestorResults`: the
   * answer equals the fresh one, and the table stays sound and only grows.
   */
  method HasTrashedAncestorMemo(index: map<int, Row>, ghost depth: map<int, nat>, row: Row, memo: map<int, bool>)
    returns (r: bool, memo': map<int, bool>)
    requires DepthRanked(index, depth) && KeysMatch(index) && row.task.id in index && index[row.task.id] == row
    requires MemoSound(index, depth, memo)
    ensures r == HasTrashedAncestor(index, depth, row)
    ensures MemoSound(index, depth, memo') && memo.Keys <= memo'.Keys && row.task.id in memo'
    decreases Reach(index, depth, Some(row.task.id))
  {
    if row.task.id in memo {
      return memo[row.task.id], memo;
    }
    match row.task.parentId {
      case None =>
        r, memo' := false, memo;
      case Some(p) =>
        if p !in index {
          r, memo' := true, memo;
        } else {
          r, memo' := HasTrashedAncestorMemo(index, depth, index[p], memo);
        }
    }
    memo' := memo'[row.task.id := r];
  }

  /** The response entry for one row: hours from the snapshots, 0 where a snapshot is missing. */
  function Output(row: Row): (o: OutTask)
    ensures o.task == row.task
    ensures o.hrCompleted == (if row.latest.Some? then row.latest.value.hrCompleted else 0.0)
    ensures o.hrRemaining == (if row.latest.Some? then row.latest.value.hrRemaining else 0.0)
    ensures o.hrEstimated == if row.orig.Some? then row.orig.value.hrCompleted + row.orig.value.hrRemaining else 0.0
  {
    OutTask(
      row.task,
      if row.latest.Some? then row.latest.value.hrCompleted else 0.0,
      if row.latest.Some? then row.latest.value.hrRemaining else 0.0,
      (if row.orig.Some? then row.orig.value.hrCompleted else 0.0) + (if row.orig.Some? then row.orig.value.hrRemaining else 0.0))
  }

  /** The response as written: every fetched row, in order, with no ancestor check applied. */
  function ListTasks(rows: seq<Row>): (r: seq<OutTask>)
    ensures |r| == |rows| && forall i :: 0 <= i < |rows| ==> r[i] == Output(rows[i]) && r[i].task == rows[i].task
  {
    seq(|rows|, i requires 0 <= i < |rows| => Output(rows[i]))
  }

  /**
   * A child whose parent is trashed (so its parent was not fetched) is still
   * listed, although `hasTrashedAncestor` answers true for it.
   */
  lemma OrphanStillListed()
    ensures var child := Row(TaskRow(2, "child", None, Some(1), false, false, false, false), None, None);
      var rows := [child];
      && DepthRanked(IndexRows(rows), map[2 := 0])
      && HasTrashedAncestor(IndexRows(rows), map[2 := 0], child)
      && ListTasks(rows) == [Output(child)]
  {
    var child := Row(TaskRow(2, "child", None, Some(1), false, false, false, false), None, None);
    assert IndexRows([child]) == map[2 := child];
  }

  /**
   * The response with the ancestor check applied: the rows whose walk reaches a
   * root inside the fetched set, in their fetched order.
   */
  function ListUntrashedTasks(index: map<int, Row>, ghost depth: map<int, nat>, rows: seq<Row>): (r: seq<OutTask>)
    requires DepthRanked(index, depth)
    ensures |r| <= |rows|
    ensures forall i :: 0 <= i < |rows| && !HasTrashedAncestor(index, depth, rows[i]) ==> Output(rows[i]) in r
    ensures forall o :: o in r ==> exists i :: 0 <= i < |rows| && o == Output(rows[i]) && !HasTrashedAncestor(index, depth, rows[i])
    decreases |rows|
  {
    if rows == [] then []
    else
      var rest := ListUntrashedTasks(index, depth, rows[1..]);
      assert forall o :: o in rest ==> exists i :: 0 < i < |rows| && o == Output(rows[i]) && !HasTrashedAncestor(index, depth, rows[i]) by {
        forall o | o in rest
          ensures exists i :: 0 < i < |rows| && o == Output(rows[i]) && !HasTrashedAncestor(index, depth, rows[i])
        {
          var j :| 0 <= j < |rows[1..]| && o == Output(rows[1..][j]) && !HasTrashedAncestor(index, depth, rows[1..][j]);
          assert rows[1..][j] == rows[j + 1];
        }
      }
      if HasTrashedAncestor(index, depth, rows[0]) then rest else [Output(rows[0])] + rest
  }

  /** Entry x is the output of a row fetched before a row whose output is y. */
  ghost predicate ListedBefore(rows: seq<Row>, x: OutTask, y: OutTask) {
    exists i, j :: 0 <= i < j < |rows| && x == Output(rows[i]) && y == Output(rows[j])
  }

  /** An order among the rows after the first is an order among all the rows. */
  lemma ListedBeforeInTail(rows: seq<Row>, x: OutTask, y: OutTask)
    requires rows != [] && ListedBefore(rows[1..], x, y)
    ensures ListedBefore(rows, x, y)
  {
    var tail := rows[1..];
    var i, j :| 0 <= i < j < |tail| && x == Output(tail[i]) && y == Output(tail[j]);
    assert tail[i] == rows[i + 1] && tail[j] == rows[j + 1];
  }

  /** An entry listed from the rows after the first comes after the first row's output. */
  lemma ListedAfterHead(index: map<int, Row>, depth: map<int, nat>, rows: seq<Row>, y: OutTask)
    requires DepthRanked(index, depth) && rows != []
    requires y in ListUntrashedTasks(index, depth, rows[1..])
    ensures ListedBefore(rows, Output(rows[0]), y)
  {
    var tail := rows[1..];
    var k :| 0 <= k < |tail| && y == Output(tail[k]) && !HasTrashedAncestor(index, depth, tail[k]);
    assert tail[k] == rows[k + 1];
  }

  /** With the check applied, the listed rows keep their fetched order. */
  lemma {:induction false} UntrashedKeepsOrder(index: map<int, Row>, depth: map<int, nat>, rows: seq<Row>, a: int, b: int)
    requires DepthRanked(index, depth)
    requires 0 <= a < b < |ListUntrashedTasks(index, depth, rows)|
    ensures ListedBefore(rows, ListUntrashedTasks(index, depth, rows)[a], ListUntrashedTasks(index, depth, rows)[b])
    decreases |rows|
  {
    var r := ListUntrashedTasks(index, depth, rows);
    var tail := rows[1..];
    var rest := ListUntrashedTasks(index, depth, tail);
    if HasTrashedAncestor(index, depth, rows[0]) {
      assert r == rest;
      UntrashedKeepsOrder(index, depth, tail, a, b);
      ListedBeforeInTail(rows, rest[a], rest[b]);
    } else if a == 0 {
      assert r == [Output(rows[0])] + rest;
      ListedAfterHead(index, depth, rows, rest[b - 1]);
    } else {
      assert r == [Output(rows[0])] + rest;
      UntrashedKeepsOrder(index, depth, tail, a - 1, b - 1);
      ListedBeforeInTail(rows, rest[a - 1], rest[b - 1]);
    }
  }

  /** With the check applied, every listed task's ancestors are all listed as well. */
  lemma {:induction false} UntrashedListIsClosed(index: map<int, Row>, depth: map<int, nat>, rows: seq<Row>, i: int)
    requires DepthRanked(index, depth) && index == IndexRows(rows)
    requires forall a, b :: 0 <= a < b < |rows| ==> rows[a].task.id != rows[b].task.id
    requires 0 <= i < |rows| && !HasTrashedAncestor(index, depth, rows[i])
    requires rows[i].task.parentId.Some?
    ensures rows[i].task.parentId.value in index
    ensures Output(index[rows[i].task.parentId.value]) in ListUntrashedTasks(index, depth, rows)
  {
    var p := rows[i].task.parentId.value;
    var parent := index[p];
    assert parent in rows;
    var j :| 0 <= j < |rows| && rows[j] == parent;
    assert !HasTrashedAncestor(index, depth, parent);
  }
}
