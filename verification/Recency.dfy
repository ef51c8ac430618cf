/** Sequences without repetition, ordered from head to tail: way lists,
    branch-target lists and bucket chains. */
module Recency {

  ghost predicate Distinct<T>(s: seq<T>) {
    forall i, j :: 0 <= i < j < |s| ==> s[i] != s[j]
  }

  function IndexOf<T(==)>(s: seq<T>, x: T): (k: nat)
    ensures k <= |s| && (k < |s| ==> s[k] == x)
    ensures forall j :: 0 <= j < k ==> s[j] != x
  {
    if s == [] || s[0] == x then 0 else 1 + IndexOf(s[1..], x)
  }

  function RemoveAt<T>(s: seq<T>, k: nat): (r: seq<T>)
    requires k < |s|
    ensures |r| == |s| - 1
    ensures forall q :: 0 <= q < |r| ==> r[q] == s[if q < k then q else q + 1]
  {
    s[..k] + s[k + 1..]
  }

  function Remove<T(==)>(s: seq<T>, x: T): (r: seq<T>)
    ensures x !in s ==> r == s
    ensures x in s ==> |r| == |s| - 1
  {
    var k := IndexOf(s, x);
    if k < |s| then RemoveAt(s, k) else s
  }

  lemma RemoveAtCons<T>(y: T, rest: seq<T>, k: nat)
    requires k < |rest|
    ensures RemoveAt([y] + rest, 1 + k) == [y] + RemoveAt(rest, k)
  {
  }

  lemma RemoveCons<T>(y: T, rest: seq<T>, x: T)
    ensures Remove([y] + rest, x) == if y == x then rest else [y] + Remove(rest, x)
  {
    var s, k := [y] + rest, IndexOf(rest, x);
    assert s[1..] == rest && s[0] == y;
    if y == x {
      assert IndexOf(s, x) == 0 && RemoveAt(s, 0) == rest;
    } else {
      assert IndexOf(s, x) == 1 + k;
      if k < |rest| {
        RemoveAtCons(y, rest, k);
      }
    }
  }

  lemma DistinctTail<T>(y: T, rest: seq<T>)
    requires Distinct([y] + rest)
    ensures Distinct(rest) && y !in rest
  {
    var s := [y] + rest;
    assert forall k :: 0 <= k < |rest| ==> rest[k] == s[k + 1];
    assert s[0] == y;
  }

  function ToHead<T(==)>(s: seq<T>, x: T): (r: seq<T>) {
    [x] + Remove(s, x)
  }

  function ToTail<T(==)>(s: seq<T>, x: T): (r: seq<T>) {
    Remove(s, x) + [x]
  }

  lemma {:induction false} IndexOfUnique<T>(s: seq<T>, k: nat)
    requires Distinct(s) && k < |s|
    ensures IndexOf(s, s[k]) == k
  {
  }

  lemma RemoveAtDistinct<T>(s: seq<T>, k: nat)
    requires Distinct(s) && k < |s|
    ensures Distinct(RemoveAt(s, k)) && s[k] !in RemoveAt(s, k)
    ensures forall y :: y in RemoveAt(s, k) <==> y in s && y != s[k]
  {
    var r := RemoveAt(s, k);
    forall y | y in s && y != s[k]
      ensures y in r
    {
      var j :| 0 <= j < |s| && s[j] == y;
      assert r[if j < k then j else j - 1] == y;
    }
  }

  /** Removing keeps the order and drops exactly x. */
  lemma RemoveDistinct<T>(s: seq<T>, x: T)
    requires Distinct(s)
    ensures Distinct(Remove(s, x)) && x !in Remove(s, x)
    ensures forall y :: y in Remove(s, x) <==> y in s && y != x
  {
    var k := IndexOf(s, x);
    if k < |s| {
      RemoveAtDistinct(s, k);
    }
  }

  lemma MoveKeepsMembers<T>(s: seq<T>, x: T)
    requires Distinct(s) && x in s
    ensures Distinct(ToHead(s, x)) && |ToHead(s, x)| == |s|
    ensures Distinct(ToTail(s, x)) && |ToTail(s, x)| == |s|
    ensures forall y :: y in ToHead(s, x) <==> y in s
    ensures forall y :: y in ToTail(s, x) <==> y in s
  {
    RemoveDistinct(s, x);
  }

  lemma ToHeadIdentity<T>(s: seq<T>)
    requires s != []
    ensures ToHead(s, s[0]) == s
  {
  }

  lemma ToTailIdentity<T>(s: seq<T>)
    requires s != [] && Distinct(s)
    ensures ToTail(s, s[|s| - 1]) == s
  {
    IndexOfUnique(s, |s| - 1);
  }

  /** Distinct indices below n, n of them, are all of them. */
  lemma {:induction false} Covers(s: seq<nat>, n: nat, x: nat)
    requires Distinct(s) && |s| == n && (forall k :: 0 <= k < |s| ==> s[k] < n) && x < n
    ensures x in s
  {
    if x !in s {
      var all := Below(n);
      var mine := set k | 0 <= k < |s| :: s[k];
      SizeOfDistinct(s);
      assert mine <= all - {x};
      SubsetSize(mine, all - {x});
    }
  }

  ghost function Below(n: nat): (r: set<nat>)
    ensures |r| == n && forall i: nat :: i in r <==> i < n
  {
    if n == 0 then {} else Below(n - 1) + {n - 1}
  }

  lemma {:induction false} SizeOfDistinct<T>(s: seq<T>)
    requires Distinct(s)
    ensures |set k | 0 <= k < |s| :: s[k]| == |s|
  {
    var all := set k | 0 <= k < |s| :: s[k];
    if s == [] {
      assert all == {};
    } else {
      var n := |s| - 1;
      var front := s[..n];
      SizeOfDistinct(front);
      var f := set k | 0 <= k < |front| :: front[k];
      assert all == f + {s[n]} by {
        assert forall k :: 0 <= k < n ==> front[k] == s[k];
        forall y | y in all
          ensures y in f + {s[n]}
        {
          var k :| 0 <= k < |s| && s[k] == y;
          if k < n { assert front[k] == y; }
        }
      }
      assert s[n] !in f;
    }
  }

  lemma {:induction false} SubsetSize<T>(a: set<T>, b: set<T>)
    requires a <= b
    ensures |a| <= |b|
  {
    if a != {} {
      var x :| x in a;
      SubsetSize(a - {x}, b - {x});
    }
  }

  /** The numbers below n, each once. */
  ghost predicate Perm(s: seq<nat>, n: nat) {
    |s| == n && Distinct(s) && forall k :: 0 <= k < n ==> s[k] < n
  }

  lemma PermMove(s: seq<nat>, n: nat, w: nat)
    requires Perm(s, n) && w < n
    ensures w in s && Perm(ToHead(s, w), n) && Perm(ToTail(s, w), n)
  {
    Covers(s, n, w);
    MoveKeepsMembers(s, w);
    var h, t := ToHead(s, w), ToTail(s, w);
    forall k | 0 <= k < n
      ensures h[k] < n && t[k] < n
    {
      assert h[k] in h && t[k] in t;
    }
  }
}
