/**
 * A JavaScript `Set` as the engine uses it: a collection without duplicates
 * whose iteration order is insertion order. `add` of a member keeps its
 * position; `delete` drops the member and keeps the order of the rest.
 */
module OrderedSets {

  ghost predicate NoDup<T>(s: seq<T>) {
    forall i, j :: 0 <= i < j < |s| ==> s[i] != s[j]
  }

  /** `set.add(x)` */
  function Add<T(==)>(s: seq<T>, x: T): (r: seq<T>)
    ensures x in r
    ensures forall y :: y in r ==> y in s || y == x
    ensures forall y :: y in s ==> y in r
    ensures x in s ==> r == s
    ensures x !in s ==> |r| == |s| + 1 && r[..|s|] == s
    ensures NoDup(s) ==> NoDup(r)
  {
    if x in s then s else s + [x]
  }

  /** `set.delete(x)` */
  function Remove<T(==)>(s: seq<T>, x: T): (r: seq<T>)
    ensures x !in r
    ensures forall y :: y in r ==> y in s && y != x
    ensures forall y :: y in s && y != x ==> y in r
    ensures x !in s ==> r == s
    ensures x in s && NoDup(s) ==> |r| == |s| - 1
    ensures NoDup(s) ==> NoDup(r)
  {
    if s == [] then []
    else if s[0] == x then Remove(s[1..], x)
    else
      var rest := Remove(s[1..], x);
      assert NoDup(s) ==> s[0] !in s[1..];
      [s[0]] + rest
  }

  /** Removal keeps the relative order of the remaining members. */
  lemma {:induction false} RemoveKeepsOrder<T>(s: seq<T>, x: T, i: nat, j: nat)
    requires i < j < |s| && s[i] != x && s[j] != x
    ensures exists a, b :: 0 <= a < b < |Remove(s, x)| && Remove(s, x)[a] == s[i] && Remove(s, x)[b] == s[j]
  {
    if s[0] == x {
      RemoveKeepsOrder(s[1..], x, i - 1, j - 1);
      assert Remove(s, x) == Remove(s[1..], x);
      var a, b :| 0 <= a < b < |Remove(s[1..], x)| && Remove(s[1..], x)[a] == s[1..][i - 1] && Remove(s[1..], x)[b] == s[1..][j - 1];
      assert Remove(s, x)[a] == s[i] && Remove(s, x)[b] == s[j];
    } else if i == 0 {
      assert s[j] == s[1..][j - 1];
      assert s[j] in Remove(s[1..], x);
      var b :| 0 <= b < |Remove(s[1..], x)| && Remove(s[1..], x)[b] == s[j];
      assert Remove(s, x)[0] == s[i] && Remove(s, x)[b + 1] == s[j];
    } else {
      RemoveKeepsOrder(s[1..], x, i - 1, j - 1);
      var a, b :| 0 <= a < b < |Remove(s[1..], x)| && Remove(s[1..], x)[a] == s[1..][i - 1] && Remove(s[1..], x)[b] == s[1..][j - 1];
      assert Remove(s, x)[a + 1] == s[i] && Remove(s, x)[b + 1] == s[j];
    }
  }

  /** A non-empty set has an element (the witness `var x :| x in s` needs). */
  lemma ElementOf<T>(s: set<T>) returns (x: T)
    requires s != {}
    ensures x in s
  {
    if forall y :: y !in s {
      assert false;
    }
    x :| x in s;
  }

  /** A value of a map is stored under some key. */
  lemma KeyOf<K, V>(m: map<K, V>, v: V) returns (k: K)
    requires v in m.Values
    ensures k in m && m[k] == v
  {
    if forall j :: j in m ==> m[j] != v {
      assert false;
    }
    k :| k in m && m[k] == v;
  }
}
