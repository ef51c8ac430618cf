/** Linked lists over numbered nodes: a link is a node number, NULL is -1.
    A list is valid when it spells out a given sequence of nodes. */
module Links {
  import opened Recency

  const NULL: int := -1

  /** The node at position k, or NULL off either end. */
  function At(nodes: seq<nat>, k: int): int {
    if 0 <= k < |nodes| then nodes[k] else NULL
  }

  /** Node numbers of a pool of n nodes. */
  predicate Within(nodes: seq<nat>, n: nat) {
    forall k :: 0 <= k < |nodes| ==> nodes[k] < n
  }

  // ---- singly linked ----

  ghost predicate IsChain(next: seq<int>, head: int, nodes: seq<nat>) {
    && Distinct(nodes)
    && head == At(nodes, 0)
    && (forall k :: 0 <= k < |nodes| ==> nodes[k] < |next|)
    && forall k {:trigger next[nodes[k]]} :: 0 <= k < |nodes| ==> next[nodes[k]] == At(nodes, k + 1)
  }

  lemma ChainFrame(next: seq<int>, next': seq<int>, head: int, nodes: seq<nat>)
    requires IsChain(next, head, nodes)
    requires forall k :: 0 <= k < |nodes| ==> nodes[k] < |next'| && next'[nodes[k]] == next[nodes[k]]
    ensures IsChain(next', head, nodes)
  {
  }

  lemma ChainPush(next: seq<int>, head: int, nodes: seq<nat>, x: nat)
    requires IsChain(next, head, nodes) && x < |next| && x !in nodes
    ensures IsChain(next[x := head], x, [x] + nodes)
  {
    var all := [x] + nodes;
    assert forall k :: 0 < k < |all| ==> all[k] == nodes[k - 1];
    assert forall k :: 0 < k <= |all| ==> At(all, k) == At(nodes, k - 1);
  }

  /** Unlinking the head, or a node after its predecessor. */
  lemma ChainPop(next: seq<int>, head: int, nodes: seq<nat>)
    requires IsChain(next, head, nodes) && nodes != []
    ensures IsChain(next, next[nodes[0]], nodes[1..])
  {
    assert forall k :: 0 <= k <= |nodes| - 1 ==> At(nodes[1..], k) == At(nodes, k + 1);
  }

  lemma ChainUnlink(next: seq<int>, head: int, nodes: seq<nat>, k: nat)
    requires IsChain(next, head, nodes) && 0 < k < |nodes|
    ensures IsChain(next[nodes[k - 1] := next[nodes[k]]], head, RemoveAt(nodes, k))
  {
    var r := RemoveAt(nodes, k);
    RemoveAtDistinct(nodes, k);
    assert forall q :: 0 <= q <= |r| ==> At(r, q) == At(nodes, if q < k then q else q + 1);
  }

  /** Inserting x after position k - 1, or at the head when k is 0. */
  function InsertAt(nodes: seq<nat>, k: nat, x: nat): seq<nat>
    requires k <= |nodes|
  {
    nodes[..k] + [x] + nodes[k..]
  }

  lemma ChainInsert(next: seq<int>, head: int, nodes: seq<nat>, k: nat, x: nat)
    requires IsChain(next, head, nodes) && 0 < k <= |nodes| && x < |next| && x !in nodes
    ensures IsChain(next[x := next[nodes[k - 1]]][nodes[k - 1] := x], head, InsertAt(nodes, k, x))
  {
    var r, next' := InsertAt(nodes, k, x), next[x := next[nodes[k - 1]]][nodes[k - 1] := x];
    assert next[nodes[k - 1]] == At(nodes, k);
    forall q | 0 <= q < |r|
      ensures r[q] < |next| && next'[r[q]] == At(r, q + 1)
    {
      if q != k {
        var m := if q < k then q else q - 1;
        assert r[q] == nodes[m] && next[nodes[m]] == At(nodes, m + 1);
      }
      assert q + 1 < |r| ==> r[q + 1] == if q + 1 == k then x else nodes[if q + 1 < k then q + 1 else q];
    }
  }

  lemma ChainAppend(next: seq<int>, head: int, nodes: seq<nat>, x: nat)
    requires IsChain(next, head, nodes) && nodes != [] && x < |next| && x !in nodes
    ensures IsChain(next[x := NULL][nodes[|nodes| - 1] := x], head, nodes + [x])
  {
    var n := |nodes|;
    assert next[nodes[n - 1]] == At(nodes, n);
    ChainInsert(next, head, nodes, n, x);
    assert InsertAt(nodes, n, x) == nodes + [x];
  }

  // ---- doubly linked, with head and tail ----

  ghost predicate IsBack(prev: seq<int>, tail: int, nodes: seq<nat>) {
    && Distinct(nodes)
    && tail == At(nodes, |nodes| - 1)
    && (forall k :: 0 <= k < |nodes| ==> nodes[k] < |prev|)
    && forall k {:trigger prev[nodes[k]]} :: 0 <= k < |nodes| ==> prev[nodes[k]] == At(nodes, k - 1)
  }

  datatype WayLinks = WayLinks(next: seq<int>, prev: seq<int>, head: int, tail: int)

  ghost predicate IsWayList(l: WayLinks, nodes: seq<nat>) {
    |l.next| == |l.prev| && IsChain(l.next, l.head, nodes) && IsBack(l.prev, l.tail, nodes)
  }

  lemma BackUnlink(prev: seq<int>, tail: int, nodes: seq<nat>, k: nat)
    requires IsBack(prev, tail, nodes) && k < |nodes| - 1
    ensures IsBack(prev[nodes[k + 1] := prev[nodes[k]]], tail, RemoveAt(nodes, k))
  {
    var r, prev' := RemoveAt(nodes, k), prev[nodes[k + 1] := prev[nodes[k]]];
    assert Distinct(r) by { RemoveAtDistinct(nodes, k); }
    assert prev[nodes[k]] == At(nodes, k - 1);
    forall q | 0 <= q < |r|
      ensures r[q] < |prev| && prev'[r[q]] == At(r, q - 1)
    {
      if q < k {
        assert r[q] == nodes[q] && prev[nodes[q]] == At(nodes, q - 1);
      } else if q == k {
        assert r[q] == nodes[k + 1];
      } else {
        assert r[q] == nodes[q + 1] && prev[nodes[q + 1]] == At(nodes, q) && r[q - 1] == nodes[q];
      }
    }
  }

  lemma BackPop(prev: seq<int>, tail: int, nodes: seq<nat>)
    requires IsBack(prev, tail, nodes) && nodes != []
    ensures IsBack(prev, prev[nodes[|nodes| - 1]], nodes[..|nodes| - 1])
  {
    var r := nodes[..|nodes| - 1];
    forall q | 0 <= q < |r|
      ensures prev[r[q]] == At(r, q - 1)
    {
      assert r[q] == nodes[q] && prev[nodes[q]] == At(nodes, q - 1);
    }
  }

  lemma BackPushHead(prev: seq<int>, tail: int, nodes: seq<nat>, x: nat)
    requires IsBack(prev, tail, nodes) && nodes != [] && x < |prev| && x !in nodes
    ensures IsBack(prev[x := NULL][nodes[0] := x], tail, [x] + nodes)
  {
    var r, prev' := [x] + nodes, prev[x := NULL][nodes[0] := x];
    forall q | 0 <= q < |r|
      ensures r[q] < |prev| && prev'[r[q]] == At(r, q - 1)
    {
      if q > 0 {
        assert r[q] == nodes[q - 1] && prev[nodes[q - 1]] == At(nodes, q - 2);
        assert q > 1 ==> r[q - 1] == nodes[q - 2];
      }
    }
  }

  lemma BackPushTail(prev: seq<int>, tail: int, nodes: seq<nat>, x: nat)
    requires IsBack(prev, tail, nodes) && x < |prev| && x !in nodes
    ensures IsBack(prev[x := tail], x, nodes + [x])
  {
    var r, prev' := nodes + [x], prev[x := tail];
    forall q | 0 <= q < |r|
      ensures r[q] < |prev| && prev'[r[q]] == At(r, q - 1)
    {
      if q < |nodes| {
        assert r[q] == nodes[q] && prev[nodes[q]] == At(nodes, q - 1);
      }
      assert q > 0 ==> r[q - 1] == nodes[q - 1];
    }
  }

  // ---- taking a node out of a doubly linked list ----

  lemma NodeLinks(l: WayLinks, nodes: seq<nat>, x: nat)
    requires IsWayList(l, nodes) && x in nodes
    ensures x < |l.next|
    ensures l.prev[x] == NULL <==> x == nodes[0]
    ensures l.next[x] == NULL <==> x == nodes[|nodes| - 1]
    ensures l.head == nodes[0] && l.tail == nodes[|nodes| - 1]
  {
    var k: int := IndexOf(nodes, x);
    assert l.next[nodes[k]] == At(nodes, k + 1) && l.prev[nodes[k]] == At(nodes, k - 1);
  }

  lemma UnlinkFirst(l: WayLinks, nodes: seq<nat>)
    requires IsWayList(l, nodes) && |nodes| > 1
    ensures var h := l.next[nodes[0]];
            && 0 <= h < |l.prev|
            && IsWayList(WayLinks(l.next, l.prev[h := NULL], h, l.tail), Remove(nodes, nodes[0]))
  {
    assert l.next[nodes[0]] == At(nodes, 1) && l.prev[nodes[0]] == At(nodes, -1);
    ChainPop(l.next, l.head, nodes);
    BackUnlink(l.prev, l.tail, nodes, 0);
    assert RemoveAt(nodes, 0) == nodes[1..];
  }

  lemma UnlinkLast(l: WayLinks, nodes: seq<nat>)
    requires IsWayList(l, nodes) && |nodes| > 1
    ensures var x := nodes[|nodes| - 1];
            && 0 <= l.prev[x] < |l.next|
            && IsWayList(WayLinks(l.next[l.prev[x] := NULL], l.prev, l.head, l.prev[x]), Remove(nodes, x))
  {
    var n: int := |nodes| - 1;
    IndexOfUnique(nodes, n);
    assert l.next[nodes[n]] == At(nodes, n + 1) && l.prev[nodes[n]] == At(nodes, n - 1);
    ChainUnlink(l.next, l.head, nodes, n);
    BackPop(l.prev, l.tail, nodes);
    assert RemoveAt(nodes, n) == nodes[..n];
  }

  lemma UnlinkInner(l: WayLinks, nodes: seq<nat>, x: nat)
    requires IsWayList(l, nodes) && x in nodes && x != nodes[0] && x != nodes[|nodes| - 1]
    ensures x < |l.next| && 0 <= l.prev[x] < |l.next| && 0 <= l.next[x] < |l.prev|
    ensures IsWayList(WayLinks(l.next[l.prev[x] := l.next[x]], l.prev[l.next[x] := l.prev[x]], l.head, l.tail),
                      Remove(nodes, x))
  {
    var k: int := IndexOf(nodes, x);
    assert l.next[nodes[k]] == At(nodes, k + 1) && l.prev[nodes[k]] == At(nodes, k - 1);
    ChainUnlink(l.next, l.head, nodes, k);
    BackUnlink(l.prev, l.tail, nodes, k);
  }
}
