/**
 * The parent-to-children adjacency map `parentsToChildIds: Map<number, Set<number>>`
 * and the two helpers every generation of the task index defines on it,
 * `linkToParent` and `unlinkFromParent` (src/lib/composables/TasksSet.svelte.ts:19-37,
 * src/lib/composables/useTasksSet.svelte.ts:15-33, src/lib/composables/useTasks.svelte.ts:325-347,
 * and inline in src/routes/store.svelte.ts). A child set is an `OrderedSets`
 * sequence; the map itself is a Dafny map (its iteration order is not modelled).
 */
module ChildIndex {
  import opened Options
  import opened OrderedSets

  ghost predicate WellFormed(index: map<int, seq<int>>) {
    forall p :: p in index ==> NoDup(index[p])
  }

  /**
   * `linkToParent(childId, parentId)`: nothing for a null parent; otherwise the
   * child joins the parent's set, which is created as a singleton when the parent
   * has no entry, whether or not a task with that id exists.
   */
  function Link(index: map<int, seq<int>>, child: int, parent: Option<int>): (r: map<int, seq<int>>)
    ensures parent.None? ==> r == index
    ensures parent.Some? ==>
      && r.Keys == index.Keys + {parent.value}
      && r[parent.value] == (if parent.value in index then Add(index[parent.value], child) else [child])
      && forall p :: p in index && p != parent.value ==> r[p] == index[p]
    ensures WellFormed(index) ==> WellFormed(r)
  {
    match parent
    case None => index
    case Some(p) =>
      if p in index then index[p := Add(index[p], child)] else index[p := [child]]
  }

  /**
   * `unlinkFromParent(childId, parentId)`: nothing for a null parent or a parent
   * without a set; otherwise only the child leaves that set, and the set stays
   * even when it becomes empty.
   */
  function Unlink(index: map<int, seq<int>>, child: int, parent: Option<int>): (r: map<int, seq<int>>)
    ensures parent.None? || parent.value !in index ==> r == index
    ensures parent.Some? && parent.value in index ==>
      && r.Keys == index.Keys
      && r[parent.value] == Remove(index[parent.value], child)
      && forall p :: p in index && p != parent.value ==> r[p] == index[p]
    ensures WellFormed(index) ==> WellFormed(r)
  {
    match parent
    case None => index
    case Some(p) =>
      if p in index then index[p := Remove(index[p], child)] else index
  }

  /**
   * Referential integrity for one task: when it has a parent id, the index has a
   * set under that id and the task's id is in it.
   */
  ghost predicate LinkedAt(index: map<int, seq<int>>, child: int, parent: Option<int>) {
    parent.Some? ==> parent.value in index && child in index[parent.value]
  }

  /** A link keeps every existing linkage and links the child under its parent. */
  lemma LinkKeepsLinked(index: map<int, seq<int>>, child: int, parent: Option<int>, k: int, q: Option<int>)
    requires LinkedAt(index, k, q) || (k == child && q == parent)
    ensures LinkedAt(Link(index, child, parent), k, q)
  {
  }

  /** An unlink breaks only the linkage of that child under that parent. */
  lemma UnlinkKeepsLinked(index: map<int, seq<int>>, child: int, parent: Option<int>, k: int, q: Option<int>)
    requires LinkedAt(index, k, q) && (k != child || q != parent)
    ensures LinkedAt(Unlink(index, child, parent), k, q)
  {
  }

  /** Dropping a parent's set breaks only the linkage of that parent's children. */
  lemma DropKeepsLinked(index: map<int, seq<int>>, p: int, k: int, q: Option<int>)
    requires LinkedAt(index, k, q) && q != Some(p)
    ensures LinkedAt(index - {p}, k, q)
  {
  }

  /** Membership after a link: exactly the old members plus the child, under that parent. */
  lemma LinkMembership(index: map<int, seq<int>>, child: int, parent: Option<int>, q: int, c: int)
    requires q in Link(index, child, parent)
    ensures c in Link(index, child, parent)[q] <==> (q in index && c in index[q]) || (parent == Some(q) && c == child)
  {
  }

  /**
   * Unlinking undoes linking a child that was not yet a member, except that a set
   * created by the link stays behind, empty.
   */
  lemma {:induction false} UnlinkUndoesLink(index: map<int, seq<int>>, child: int, parent: Option<int>)
    requires parent.Some? && parent.value in index ==> child !in index[parent.value]
    ensures Unlink(Link(index, child, parent), child, parent)
      == if parent.Some? && parent.value !in index then index[parent.value := []] else index
  {
    match parent
    case None =>
    case Some(p) =>
      if p in index {
        RemoveAfterAdd(index[p], child);
        assert index[p := index[p]] == index;
      } else {
        assert Remove([child], child) == [];
      }
  }

  /** Removing what was just appended gives back the original sequence. */
  lemma {:induction false} RemoveAfterAdd(s: seq<int>, x: int)
    requires x !in s
    ensures Remove(s + [x], x) == s
  {
    if s != [] {
      assert (s + [x])[1..] == s[1..] + [x];
      RemoveAfterAdd(s[1..], x);
    }
  }
}
