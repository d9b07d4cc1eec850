/**
 * The descriptors handed to the flow renderer (`@xyflow/svelte`): nodes and
 * edges whose ids are built from task ids with JavaScript's `toString()` and a
 * template string. Task ids are integers, so `toString()` is the decimal
 * numeral with a leading `-` for negatives. It is injective, and so is the edge
 * id `e<parent>-<child>`: distinct tasks never share a node id, and distinct
 * parent/child pairs never share an edge id.
 */
module Flow {
  import opened Layout

  /** A node descriptor; `data` is the object the node's component renders. */
  datatype FlowNode<D> = FlowNode(id: string, kind: string, position: Point, data: D)

  /** An edge descriptor from `source` to `target`. */
  datatype FlowEdge = FlowEdge(id: string, kind: string, source: string, target: string)

  predicate IsDigit(c: char) {
    '0' <= c <= '9'
  }

  function DigitChar(d: nat): (c: char)
    requires d < 10
    ensures IsDigit(c)
  {
    "0123456789"[d]
  }

  function DigitValue(c: char): (d: nat)
    requires IsDigit(c)
    ensures d < 10 && DigitChar(d) == c
  {
    (c as int - '0' as int) as nat
  }

  /** The decimal numeral of n, without leading zeros. */
  function NatToString(n: nat): (s: string)
    ensures |s| > 0 && forall i :: 0 <= i < |s| ==> IsDigit(s[i])
  {
    if n < 10 then [DigitChar(n)] else NatToString(n / 10) + [DigitChar(n % 10)]
  }

  /** The value of a non-empty digit string. */
  function ParseNat(s: string): (n: nat)
    requires |s| > 0 && forall i :: 0 <= i < |s| ==> IsDigit(s[i])
  {
    if |s| == 1 then DigitValue(s[0]) else 10 * ParseNat(s[..|s| - 1]) + DigitValue(s[|s| - 1])
  }

  lemma {:induction false} ParseNatToString(n: nat)
    ensures ParseNat(NatToString(n)) == n
  {
    if n >= 10 {
      var s := NatToString(n);
      assert s[..|s| - 1] == NatToString(n / 10);
      ParseNatToString(n / 10);
    }
  }

  /** `n.toString()` for an integer n. */
  function IntToString(n: int): (s: string)
    ensures |s| > 0
    ensures s[0] == '-' <==> n < 0
    ensures forall i :: 0 < i < |s| ==> IsDigit(s[i])
  {
    if n < 0 then "-" + NatToString(-n) else NatToString(n)
  }

  /** Reads back an integer numeral. */
  function ParseInt(s: string): (n: int)
    requires |s| > 0 && forall i :: 0 < i < |s| ==> IsDigit(s[i])
    requires s[0] == '-' ==> |s| > 1
    requires s[0] != '-' ==> IsDigit(s[0])
  {
    if s[0] == '-' then 0 - ParseNat(s[1..]) as int else ParseNat(s)
  }

  lemma ParseIntToString(n: int)
    ensures ParseInt(IntToString(n)) == n
  {
    if n < 0 {
      assert IntToString(n)[1..] == NatToString(-n);
      ParseNatToString(-n);
    } else {
      ParseNatToString(n);
    }
  }

  /** Distinct task ids give distinct node ids. */
  lemma IntToStringInjective(m: int, n: int)
    requires IntToString(m) == IntToString(n)
    ensures m == n
  {
    ParseIntToString(m);
    ParseIntToString(n);
  }

  /** The edge id `e${parentId}-${id}`. */
  function EdgeId(parent: int, child: int): (s: string)
    ensures |s| >= 4 && s[0] == 'e'
  {
    "e" + IntToString(parent) + "-" + IntToString(child)
  }

  /** The index of the first `-` in s at or after i, or |s|. */
  function DashFrom(s: string, i: nat): (j: nat)
    requires i <= |s|
    ensures i <= j <= |s|
    ensures j < |s| ==> s[j] == '-'
    decreases |s| - i
  {
    if i == |s| || s[i] == '-' then i else DashFrom(s, i + 1)
  }

  /** The first dash after a run of digits is the one that ends the run. */
  lemma {:induction false} DashAfterDigits(s: string, i: nat, k: nat)
    requires i <= k < |s| && s[k] == '-'
    requires forall j :: i <= j < k ==> IsDigit(s[j])
    ensures DashFrom(s, i) == k
    decreases k - i
  {
    if i < k {
      DashAfterDigits(s, i + 1, k);
    }
  }

  /**
   * An edge id splits back into its parts: the parent numeral runs from just
   * after the `e` (and its sign) to the first dash, the child numeral follows.
   */
  lemma EdgeIdParts(p: int, c: int)
    ensures var s, a := EdgeId(p, c), IntToString(p);
      && s[1] == a[0]
      && DashFrom(s, if s[1] == '-' then 2 else 1) == 1 + |a|
      && s[1..1 + |a|] == a
      && s[2 + |a|..] == IntToString(c)
  {
    var s, a := EdgeId(p, c), IntToString(p);
    assert s == "e" + a + "-" + IntToString(c);
    assert s[1..1 + |a|] == a;
    assert s[2 + |a|..] == IntToString(c);
    assert forall j :: (if s[1] == '-' then 2 else 1) <= j < 1 + |a| ==> s[j] == a[j - 1];
    DashAfterDigits(s, if s[1] == '-' then 2 else 1, 1 + |a|);
  }

  /** Distinct parent/child pairs give distinct edge ids. */
  lemma EdgeIdInjective(p1: int, c1: int, p2: int, c2: int)
    requires EdgeId(p1, c1) == EdgeId(p2, c2)
    ensures p1 == p2 && c1 == c2
  {
    EdgeIdParts(p1, c1);
    EdgeIdParts(p2, c2);
    var a1, a2 := IntToString(p1), IntToString(p2);
    assert |a1| == |a2|;
    assert a1 == a2;
    IntToStringInjective(p1, p2);
    IntToStringInjective(c1, c2);
  }
}
