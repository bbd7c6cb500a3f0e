// The three deletion selectors: each turns the node cache into the list of
// nodes handed to the host for removal.
module RemovalLists {
  import opened NodeTypes
  import opened NodePolicy

  predicate NoDuplicates(s: seq<Node>)
  {
    forall i, j :: 0 <= i < j < |s| ==> s[i] != s[j]
  }

  /** The position of the first occurrence of `n` in `s`. */
  function IndexOf(s: seq<Node>, n: Node): (k: nat)
    requires n in s
    ensures k < |s| && s[k] == n && n !in s[..k]
  {
    if s[0] == n then 0
    else
      var k' := IndexOf(s[1..], n);
      assert s[..k' + 1] == [s[0]] + s[1..][..k'];
      k' + 1
  }

  lemma IndexOfUnique(s: seq<Node>, n: Node, k: nat)
    requires k < |s| && s[k] == n && n !in s[..k]
    ensures IndexOf(s, n) == k
  {
  }

  /** `r` lists exactly the nodes of `s` that are in `chosen`, each once, in the
      order of their first occurrence in `s`. */
  ghost predicate Selects(r: seq<Node>, s: seq<Node>, chosen: set<Node>)
  {
    (forall n :: n in r <==> n in s && n in chosen) &&
    NoDuplicates(r) &&
    (forall i, j :: 0 <= i < j < |r| ==> r[i] in s && r[j] in s && IndexOf(s, r[i]) < IndexOf(s, r[j]))
  }

  /** The reference list: the nodes of `s` in `chosen`, in order. */
  function Filter(s: seq<Node>, chosen: set<Node>): seq<Node>
  {
    if s == [] then []
    else Filter(s[..|s| - 1], chosen) + (if s[|s| - 1] in chosen then [s[|s| - 1]] else [])
  }

  /** The nodes DeletePastNodes removes: off the maneuver trajectory or in the past. */
  function PastOrOffTrajectory(s: seq<Node>, ut: real): set<Node>
  {
    set n | n in s && (!n.onTrajectory || n.time < ut)
  }

  /** The nodes DeleteNodes adds after its target `t`: all other nodes when `t` is off
      the maneuver trajectory, otherwise those strictly later than `t`. */
  function AfterTarget(s: seq<Node>, t: Node): set<Node>
  {
    set n | n in s && n != t && (!t.onTrajectory || t.time < n.time)
  }

  /** `r` is DeleteNodes' removal list for target `t`. */
  ghost predicate DeletesFrom(r: seq<Node>, s: seq<Node>, t: Node)
  {
    |r| > 0 && r[0] == t && Selects(r[1..], s, AfterTarget(s, t))
  }

  /** One step of a selection loop: scanning s[k] keeps the selection exact. */
  lemma SelectsExtend(r: seq<Node>, s: seq<Node>, k: nat, chosen: set<Node>)
    requires k < |s| && Selects(r, s[..k], chosen)
    ensures s[k] in chosen && s[k] !in r ==> Selects(r + [s[k]], s[..k + 1], chosen)
    ensures !(s[k] in chosen && s[k] !in r) ==> Selects(r, s[..k + 1], chosen)
  {
    var p, q := s[..k], s[..k + 1];
    assert q == p + [s[k]];
    forall n | n in p ensures IndexOf(q, n) == IndexOf(p, n) {
      var j := IndexOf(p, n);
      assert q[..j] == p[..j];
      IndexOfUnique(q, n, j);
    }
    if s[k] in chosen && s[k] !in r {
      assert s[k] !in p;
      IndexOfUnique(q, s[k], k);
      var r' := r + [s[k]];
      forall i, j | 0 <= i < j < |r'|
        ensures r'[i] in q && r'[j] in q && IndexOf(q, r'[i]) < IndexOf(q, r'[j])
      {
        assert r'[i] == r[i] && r[i] in p;
        if j < |r| {
          assert r'[j] == r[j];
        } else {
          assert IndexOf(p, r[i]) < k;
        }
      }
    } else {
      forall i, j | 0 <= i < j < |r|
        ensures r[i] in q && r[j] in q && IndexOf(q, r[i]) < IndexOf(q, r[j])
      {
        assert r[i] in p && r[j] in p;
      }
    }
  }

  /** A selection is empty exactly when no node of `s` is chosen. */
  lemma SelectsEmpty(r: seq<Node>, s: seq<Node>, chosen: set<Node>)
    requires Selects(r, s, chosen)
    ensures r == [] <==> forall n :: n in s ==> n !in chosen
  {
    if r != [] {
      assert r[0] in s && r[0] in chosen;
    }
  }

  /** The head of a selection is its node that occurs first in `s`. */
  lemma SelectsHeadFirst(r: seq<Node>, s: seq<Node>, chosen: set<Node>)
    requires Selects(r, s, chosen) && r != []
    ensures forall x :: x in r ==> x in s && IndexOf(s, r[0]) <= IndexOf(s, x)
  {
  }

  /** Two non-empty selections of the same nodes start with the same node. */
  lemma SelectsSameHead(r1: seq<Node>, r2: seq<Node>, s: seq<Node>, chosen: set<Node>)
    requires Selects(r1, s, chosen) && Selects(r2, s, chosen)
    requires r1 != [] && r2 != []
    ensures r1[0] == r2[0]
  {
    SelectsHeadFirst(r1, s, chosen);
    SelectsHeadFirst(r2, s, chosen);
    assert r2[0] in r1 && r1[0] in r2;
  }

  /** Dropping the head of a selection selects the remaining chosen nodes. */
  lemma SelectsTail(r: seq<Node>, s: seq<Node>, chosen: set<Node>)
    requires Selects(r, s, chosen) && r != []
    ensures Selects(r[1..], s, chosen - {r[0]})
  {
  }

  /** Two lists that both select `chosen` from `s` are the same list. */
  lemma {:induction false} SelectsUnique(r1: seq<Node>, r2: seq<Node>, s: seq<Node>, chosen: set<Node>)
    requires Selects(r1, s, chosen) && Selects(r2, s, chosen)
    ensures r1 == r2
    decreases |r1|
  {
    if r1 != [] && r2 != [] {
      SelectsSameHead(r1, r2, s, chosen);
      SelectsTail(r1, s, chosen);
      SelectsTail(r2, s, chosen);
      SelectsUnique(r1[1..], r2[1..], s, chosen - {r1[0]});
      assert r1 == [r1[0]] + r1[1..] && r2 == [r2[0]] + r2[1..];
    } else {
      SelectsEmpty(r1, s, chosen);
      SelectsEmpty(r2, s, chosen);
    }
  }

  /** On a cache without duplicates, the reference list is a selection. */
  lemma {:induction false} FilterSelects(s: seq<Node>, chosen: set<Node>)
    requires NoDuplicates(s)
    ensures Selects(Filter(s, chosen), s, chosen)
    decreases |s|
  {
    if s == [] {
      assert forall n :: n !in s;
    } else {
      var k := |s| - 1;
      var p := s[..k];
      assert NoDuplicates(p) by {
        forall i, j | 0 <= i < j < |p| ensures p[i] != p[j] {
          assert p[i] == s[i] && p[j] == s[j];
        }
      }
      assert s[k] !in p by {
        forall m | 0 <= m < |p| ensures p[m] != s[k] {
          assert p[m] == s[m];
        }
      }
      FilterSelects(p, chosen);
      var rest := Filter(p, chosen);
      assert s[k] !in rest;
      SelectsExtend(rest, s, k, chosen);
      assert s[..k + 1] == s;
    }
  }

  /** On a cache without duplicates, every selection is the reference list. */
  lemma SelectionIsFilter(r: seq<Node>, s: seq<Node>, chosen: set<Node>)
    requires NoDuplicates(s) && Selects(r, s, chosen)
    ensures r == Filter(s, chosen)
  {
    FilterSelects(s, chosen);
    SelectsUnique(r, Filter(s, chosen), s, chosen);
  }

  /** DeleteNode's selection: the node at the clamped index, when it is in the past
      and off the maneuver trajectory; None when the clamped index is outside the
      cache, where reading it throws. */
  method SelectNode(nodes: seq<Node>, selectedNodeIndex: int32, ut: real)
    returns (toDelete: Option<seq<Node>>)
    ensures var k := ClampIndex(selectedNodeIndex, |nodes|);
      toDelete.None? <==> k < 0 || k >= |nodes|
    ensures var k := ClampIndex(selectedNodeIndex, |nodes|);
      toDelete.Some? ==>
        0 <= k < |nodes| &&
        (toDelete.value == [] || toDelete.value == [nodes[k]]) &&
        (toDelete.value != [] <==> nodes[k].time < ut && !nodes[k].onTrajectory)
    ensures 0 <= selectedNodeIndex as int < |nodes| ==>
      toDelete.Some? &&
      (toDelete.value != [] <==>
        nodes[selectedNodeIndex].time < ut && !nodes[selectedNodeIndex].onTrajectory)
  {
    var index: int := selectedNodeIndex as int;
    if WrapInt32(index + 1) as int > |nodes| {
      index := if |nodes| - 1 > 0 then |nodes| - 1 else 0;
    }
    if index < 0 || index >= |nodes| {
      return None;
    }
    var list := [];
    if nodes[index].time < ut && !nodes[index].onTrajectory {
      list := list + [nodes[index]];
    }
    return Some(list);
  }

  /** DeletePastNodes' selection. */
  method SelectPastNodes(nodes: seq<Node>, ut: real) returns (toDelete: seq<Node>)
    ensures Selects(toDelete, nodes, PastOrOffTrajectory(nodes, ut))
  {
    ghost var chosen := PastOrOffTrajectory(nodes, ut);
    toDelete := [];
    for k := 0 to |nodes|
      invariant Selects(toDelete, nodes[..k], chosen)
    {
      SelectsExtend(toDelete, nodes, k, chosen);
      var node := nodes[k];
      if node !in toDelete && (!node.onTrajectory || node.time < ut) {
        toDelete := toDelete + [node];
      }
    }
    assert nodes[..|nodes|] == nodes;
  }

  /** DeleteNodes' selection: the target at the clamped index, then every other node
      when the target is off the maneuver trajectory, or else every node strictly
      later than it; None when the clamped index is outside the cache. */
  method SelectNodesFrom(nodes: seq<Node>, selectedNodeIndex: int32) returns (toDelete: Option<seq<Node>>)
    ensures var k := ClampIndex(selectedNodeIndex, |nodes|);
      toDelete.None? <==> k < 0 || k >= |nodes|
    ensures var k := ClampIndex(selectedNodeIndex, |nodes|);
      toDelete.Some? ==> 0 <= k < |nodes| && DeletesFrom(toDelete.value, nodes, nodes[k])
    ensures toDelete.Some? ==> NoDuplicates(toDelete.value)
    ensures var k := ClampIndex(selectedNodeIndex, |nodes|);
      toDelete.Some? && !nodes[k].onTrajectory ==> forall n :: n in toDelete.value <==> n in nodes
    ensures var k := ClampIndex(selectedNodeIndex, |nodes|);
      toDelete.Some? && nodes[k].onTrajectory ==>
        forall n :: n in toDelete.value <==> n == nodes[k] || (n in nodes && nodes[k].time < n.time)
  {
    var index: int := selectedNodeIndex as int;
    if WrapInt32(index + 1) as int > |nodes| {
      index := if |nodes| - 1 > 0 then |nodes| - 1 else 0;
    }
    if index < 0 || index >= |nodes| {
      return None;
    }
    var nodeToDelete := nodes[index];
    ghost var chosen := AfterTarget(nodes, nodeToDelete);
    var list := [nodeToDelete];
    for k := 0 to |nodes|
      invariant |list| > 0 && list[0] == nodeToDelete
      invariant Selects(list[1..], nodes[..k], chosen)
    {
      SelectsExtend(list[1..], nodes, k, chosen);
      var node := nodes[k];
      if node !in list && (!nodeToDelete.onTrajectory || nodeToDelete.time < node.time) {
        assert (list + [node])[1..] == list[1..] + [node];
        list := list + [node];
      }
    }
    assert nodes[..|nodes|] == nodes;
    assert list == [nodeToDelete] + list[1..];
    assert nodeToDelete !in list[1..];
    return Some(list);
  }

  /** Node times strictly increase along the cache. */
  predicate StrictlyTimeOrdered(s: seq<Node>)
  {
    forall i, j :: 0 <= i < j < |s| ==> s[i].time < s[j].time
  }

  /** On a strictly time-ordered cache with an on-trajectory target s[k], the first
      m nodes contribute exactly those after position k. */
  lemma {:induction false} FilterAfterTarget(s: seq<Node>, k: nat, m: nat)
    requires StrictlyTimeOrdered(s) && k < |s| && s[k].onTrajectory && m <= |s|
    ensures Filter(s[..m], AfterTarget(s, s[k])) == if m <= k then [] else s[k + 1..m]
    decreases m
  {
    if m > 0 {
      FilterAfterTarget(s, k, m - 1);
      var c := AfterTarget(s, s[k]);
      var x := s[m - 1];
      assert s[..m][..m - 1] == s[..m - 1] && s[..m][m - 1] == x;
      assert Filter(s[..m], c) == Filter(s[..m - 1], c) + (if x in c then [x] else []);
      if m - 1 > k {
        assert s[k].time < x.time;
        assert x in c;
        assert s[k + 1..m] == s[k + 1..m - 1] + [x];
      } else if m - 1 < k {
        assert x.time < s[k].time;
        assert x !in c;
      } else {
        assert x !in c;
      }
    }
  }

  /** On a strictly time-ordered cache, the nodes selected after an on-trajectory
      target s[k] are exactly the nodes after position k. */
  lemma SelectsAfterTarget(tail: seq<Node>, s: seq<Node>, k: nat)
    requires StrictlyTimeOrdered(s) && k < |s| && s[k].onTrajectory
    requires Selects(tail, s, AfterTarget(s, s[k]))
    ensures tail == s[k + 1..]
  {
    assert NoDuplicates(s) by {
      forall i, j | 0 <= i < j < |s| ensures s[i] != s[j] {
        assert s[i].time < s[j].time;
      }
    }
    SelectionIsFilter(tail, s, AfterTarget(s, s[k]));
    FilterAfterTarget(s, k, |s|);
    assert s[..|s|] == s;
  }

  /** On a strictly time-ordered cache, DeleteNodes with an on-trajectory target
      truncates the plan: the removal list is the target and every node after it. */
  lemma DeletesFromTruncates(r: seq<Node>, s: seq<Node>, k: nat)
    requires StrictlyTimeOrdered(s) && k < |s| && s[k].onTrajectory
    requires DeletesFrom(r, s, s[k])
    ensures r == s[k..]
  {
    SelectsAfterTarget(r[1..], s, k);
    assert r == [r[0]] + r[1..];
    assert s[k..] == [s[k]] + s[k + 1..];
  }

  /** The plan [10, 20, 30, 40] with the on-trajectory node at 20 as target: the
      removal list is the nodes at 20, 30 and 40, and the node at 10 is kept. */
  lemma DeletesFromSecondOfFour(r: seq<Node>, a: Node, b: Node, c: Node, d: Node)
    requires a.time == 10.0 && b.time == 20.0 && c.time == 30.0 && d.time == 40.0
    requires b.onTrajectory
    requires DeletesFrom(r, [a, b, c, d], b)
    ensures r == [b, c, d]
  {
    var s := [a, b, c, d];
    assert StrictlyTimeOrdered(s);
    DeletesFromTruncates(r, s, 1);
    assert s[1..] == [b, c, d];
  }
}
