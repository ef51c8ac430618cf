/** The branch target buffer (lab3/bpred.c): per-set lists threaded through one
    flat table, most recently taken branch first. */
module BranchTargets {
  import opened Pow2
  import opened FlatMemory
  import opened Recency
  import opened Links

  /** A branch address and its target; empty entries are all zero. */
  datatype Entry = Entry(addr: nat, target: nat)

  const EMPTY := Entry(0, 0)

  /** An update for a taken branch; `correct` is the caller's verdict on the prediction. */
  datatype Taken = Taken(baddr: nat, btarget: nat, correct: bool)

  // ---- one set, most recent entry first ----

  function Find(es: seq<Entry>, a: nat): (k: nat)
    ensures k <= |es| && (k < |es| ==> es[k].addr == a)
    ensures forall j :: 0 <= j < k ==> es[j].addr != a
  {
    if es == [] || es[0].addr == a then 0 else 1 + Find(es[1..], a)
  }

  /** A match moves to the front, and learns the new target unless the prediction
      was correct; a miss replaces the last entry. */
  function UpdateSet(es: seq<Entry>, u: Taken): (es': seq<Entry>)
    requires es != []
    ensures |es'| == |es|
  {
    var k := Find(es, u.baddr);
    if k == |es| then [Entry(u.baddr, u.btarget)] + es[..|es| - 1]
    else [if u.correct then es[k] else Entry(u.baddr, u.btarget)] + RemoveAt(es, k)
  }

  /** A set of n entries after a history of updates. */
  function RunSet(n: nat, h: seq<Taken>): (es: seq<Entry>)
    requires n > 0
    ensures |es| == n
  {
    if h == [] then seq(n, _ => EMPTY) else UpdateSet(RunSet(n, h[..|h| - 1]), h[|h| - 1])
  }

  /** The branches of a history, most recently taken first. */
  function Recent(h: seq<Taken>): seq<nat> {
    if h == [] then [] else ToHead(Recent(h[..|h| - 1]), h[|h| - 1].baddr)
  }

  /** When a branch was last taken, counted from 1; 0 if never. */
  function LastTaken(h: seq<Taken>, a: nat): (t: nat)
    ensures t <= |h|
  {
    if h == [] then 0
    else if h[|h| - 1].baddr == a then |h|
    else LastTaken(h[..|h| - 1], a)
  }

  function LastTarget(h: seq<Taken>, a: nat): nat {
    if LastTaken(h, a) == 0 then 0 else h[LastTaken(h, a) - 1].btarget
  }

  /** The branches of r, latest first. */
  ghost predicate Ordered(h: seq<Taken>, r: seq<nat>) {
    forall i, j :: 0 <= i < j < |r| ==> LastTaken(h, r[i]) > LastTaken(h, r[j])
  }

  lemma RemoveOrdered(h: seq<Taken>, r: seq<nat>, x: nat)
    requires Ordered(h, r)
    ensures Ordered(h, Remove(r, x))
  {
    var m, k := Remove(r, x), IndexOf(r, x);
    assert forall i :: 0 <= i < |m| ==> m[i] == r[if i < k then i else i + 1];
  }

  lemma AddOrdered(h: seq<Taken>, u: Taken, m: seq<nat>)
    requires Ordered(h, m) && u.baddr !in m
    ensures Ordered(h + [u], [u.baddr] + m)
  {
    var r := [u.baddr] + m;
    assert (h + [u])[..|h|] == h;
    forall i | 0 < i < |r|
      ensures LastTaken(h + [u], r[i]) == LastTaken(h, m[i - 1])
    {
      assert r[i] == m[i - 1] && m[i - 1] in m;
    }
  }

  lemma {:induction false} RecentMembers(h: seq<Taken>, a: nat)
    ensures Distinct(Recent(h)) && (a in Recent(h) <==> LastTaken(h, a) > 0)
  {
    if h != [] {
      RecentMembers(h[..|h| - 1], a);
      RemoveDistinct(Recent(h[..|h| - 1]), h[|h| - 1].baddr);
    }
  }

  lemma {:induction false} RecentStep(h: seq<Taken>, u: Taken)
    ensures Recent(h + [u]) == [u.baddr] + Remove(Recent(h), u.baddr)
  {
    assert (h + [u])[..|h|] == h;
  }

  /** Recent lists the branches taken so far, in order of their last time. */
  lemma {:induction false} RecentOrder(h: seq<Taken>)
    ensures Ordered(h, Recent(h))
  {
    if h != [] {
      var front, u := h[..|h| - 1], h[|h| - 1];
      assert h == front + [u];
      RecentStep(front, u);
      RecentOrder(front);
      KeptOrdered(front, u, Recent(front));
    }
  }

  lemma {:induction false} KeptOrdered(h: seq<Taken>, u: Taken, r: seq<nat>)
    requires Ordered(h, r) && r == Recent(h)
    ensures Ordered(h + [u], [u.baddr] + Remove(r, u.baddr))
  {
    RecentMembers(h, u.baddr);
    RemoveDistinct(r, u.baddr);
    RemoveOrdered(h, r, u.baddr);
    AddOrdered(h, u, Remove(r, u.baddr));
  }

  /** The first entries are the given branches, and the others are empty. */
  ghost predicate Holds(es: seq<Entry>, r: seq<nat>) {
    forall k :: 0 <= k < |es| ==> if k < |r| then es[k].addr == r[k] else es[k] == EMPTY
  }

  lemma {:induction false} FindIsIndex(es: seq<Entry>, r: seq<nat>, a: nat)
    requires Holds(es, r) && (a != 0 || |r| + 2 > |es|)
    ensures Find(es, a) == |es| || Find(es, a) == IndexOf(r, a)
    ensures Find(es, a) == |es| ==> IndexOf(r, a) >= |es| || IndexOf(r, a) == |r|
  {
    assert forall q :: 0 <= q < |es| && q < |r| ==> es[q].addr == r[q];
  }

  lemma {:induction false} ToHeadAt(r: seq<nat>, x: nat, q: nat)
    requires q < |ToHead(r, x)|
    ensures ToHead(r, x)[q] == if q == 0 then x else if q <= IndexOf(r, x) then r[q - 1] else r[q]
    ensures |ToHead(r, x)| == if IndexOf(r, x) < |r| then |r| else |r| + 1
  {
    var k, m := IndexOf(r, x), Remove(r, x);
    assert q > 0 ==> ToHead(r, x)[q] == m[q - 1];
    if k < |r| {
      assert m == RemoveAt(r, k);
    } else {
      assert m == r;
    }
  }

  lemma {:induction false} UpdateSetAt(es: seq<Entry>, u: Taken, q: nat)
    requires 0 < q < |es|
    ensures UpdateSet(es, u)[q] == if q <= Find(es, u.baddr) then es[q - 1] else es[q]
  {
  }

  lemma UpdateHolds(es: seq<Entry>, r: seq<nat>, u: Taken)
    requires es != [] && Holds(es, r) && (u.baddr != 0 || |r| + 2 > |es|)
    ensures Holds(UpdateSet(es, u), ToHead(r, u.baddr))
  {
    var es', r' := UpdateSet(es, u), ToHead(r, u.baddr);
    FindIsIndex(es, r, u.baddr);
    ToHeadAt(r, u.baddr, 0);
    forall q | 0 < q < |es|
      ensures if q < |r'| then es'[q].addr == r'[q] else es'[q] == EMPTY
    {
      UpdateSetAt(es, u, q);
      if q < |r'| {
        ToHeadAt(r, u.baddr, q);
      }
    }
  }

  /** A history that the assertion of the scan does not stop: branch address zero
      is taken only when at most one entry of the set is still empty. */
  ghost predicate Survives(n: nat, h: seq<Taken>) {
    forall i :: 0 <= i < |h| ==> SurvivesAt(n, h[..i], h[i].baddr)
  }

  ghost predicate SurvivesAt(n: nat, h: seq<Taken>, a: nat) {
    a == 0 ==> |Recent(h)| + 2 > n
  }

  lemma SurvivesSnoc(n: nat, h: seq<Taken>, u: Taken)
    ensures Survives(n, h + [u]) <==> Survives(n, h) && SurvivesAt(n, h, u.baddr)
  {
    var all := h + [u];
    assert all[..|h|] == h && all[|h|] == u;
    forall i | 0 <= i < |h|
      ensures SurvivesAt(n, all[..i], all[i].baddr) == SurvivesAt(n, h[..i], h[i].baddr)
    {
      assert all[..i] == h[..i];
    }
  }

  /** A set holds the most recently taken branches, in order: the prefix of the
      full recency list that fits. So a miss always evicts the least recently
      taken branch of the set. */
  lemma {:induction false} MostRecentFirst(n: nat, h: seq<Taken>)
    requires n > 0 && Survives(n, h)
    ensures Holds(RunSet(n, h), Recent(h))
  {
    if h != [] {
      var front, u := h[..|h| - 1], h[|h| - 1];
      assert h == front + [u];
      SurvivesSnoc(n, front, u);
      MostRecentFirst(n, front);
      UpdateHolds(RunSet(n, front), Recent(front), u);
    }
  }

  /** A caller that calls a prediction correct only when the stored target was right. */
  ghost predicate Honest(n: nat, h: seq<Taken>)
    requires n > 0
  {
    forall i :: 0 <= i < |h| ==> HonestAt(RunSet(n, h[..i]), h[i])
  }

  ghost predicate HonestAt(es: seq<Entry>, u: Taken) {
    u.correct ==> forall k :: 0 <= k < |es| && es[k].addr == u.baddr ==> es[k].target == u.btarget
  }

  lemma {:induction false} HonestPrefix(n: nat, h: seq<Taken>)
    requires n > 0 && h != [] && Honest(n, h)
    ensures Honest(n, h[..|h| - 1]) && HonestAt(RunSet(n, h[..|h| - 1]), h[|h| - 1])
  {
    var front := h[..|h| - 1];
    forall i | 0 <= i < |front|
      ensures HonestAt(RunSet(n, front[..i]), front[i])
    {
      assert front[..i] == h[..i] && HonestAt(RunSet(n, h[..i]), h[i]);
    }
  }

  lemma LastTargetSnoc(h: seq<Taken>, u: Taken, a: nat)
    ensures LastTarget(h + [u], a) == if a == u.baddr then u.btarget else LastTarget(h, a)
  {
    assert (h + [u])[..|h|] == h;
  }

  /** Under honest updates every entry holds the latest target of its branch. */
  lemma {:induction false} LatestTargets(n: nat, h: seq<Taken>, k: nat)
    requires n > 0 && Honest(n, h) && k < n && RunSet(n, h)[k].addr != 0
    ensures RunSet(n, h)[k].target == LastTarget(h, RunSet(n, h)[k].addr)
  {
    if h != [] {
      var front, u := h[..|h| - 1], h[|h| - 1];
      var es, es' := RunSet(n, front), RunSet(n, h);
      assert h == front + [u];
      HonestPrefix(n, h);
      LastTargetSnoc(front, u, es'[k].addr);
      if k == 0 {
        assert es'[0] == Entry(u.baddr, u.btarget);
      } else {
        UpdateSetAt(es, u, k);
        LatestTargets(n, front, if k <= Find(es, u.baddr) then k - 1 else k);
        OthersDiffer(n, h, 0, k);
        assert es'[0].addr == u.baddr;
      }
    }
  }

  /** The set of a branch address in a table of `sets` sets (MD_BR_SHIFT is 3). */
  function SetOf(baddr: nat, sets: nat): (s: nat)
    requires sets > 0
    ensures s < sets
  {
    (baddr / 8) % sets
  }

  ghost predicate AllIn(h: seq<Taken>, sets: nat, s: nat)
    requires sets > 0
  {
    forall u :: u in h ==> SetOf(u.baddr, sets) == s
  }

  ghost predicate Placed(history: seq<seq<Taken>>, sets: nat)
    requires sets > 0
  {
    |history| == sets && forall s {:trigger history[s]} :: 0 <= s < sets ==> AllIn(history[s], sets, s)
  }

  /** No update of any set was stopped. */
  ghost predicate AllSurvive(history: seq<seq<Taken>>, assoc: nat) {
    forall s {:trigger history[s]} :: 0 <= s < |history| ==> Survives(assoc, history[s])
  }

  lemma AllSurviveUpdate(history: seq<seq<Taken>>, assoc: nat, s: nat, u: Taken)
    requires s < |history| && AllSurvive(history, assoc) && SurvivesAt(assoc, history[s], u.baddr)
    ensures AllSurvive(history[s := history[s] + [u]], assoc)
  {
    SurvivesSnoc(assoc, history[s], u);
  }

  lemma PlacedUpdate(history: seq<seq<Taken>>, sets: nat, u: Taken)
    requires sets > 0 && Placed(history, sets)
    ensures var s := SetOf(u.baddr, sets); Placed(history[s := history[s] + [u]], sets)
  {
  }

  /** Every branch stored in a set belongs to that set. */
  lemma {:induction false} EntriesBelong(n: nat, h: seq<Taken>, sets: nat, s: nat, k: nat)
    requires n > 0 && sets > 0 && AllIn(h, sets, s) && k < n
    ensures RunSet(n, h)[k].addr == 0 || SetOf(RunSet(n, h)[k].addr, sets) == s
  {
    if h != [] {
      var front, u := h[..|h| - 1], h[|h| - 1];
      assert u in h && forall v :: v in front ==> v in h;
      var es := RunSet(n, front);
      if k > 0 {
        UpdateSetAt(es, u, k);
        EntriesBelong(n, front, sets, s, if k <= Find(es, u.baddr) then k - 1 else k);
      }
    }
  }

  // ---- no branch is stored twice ----

  ghost predicate UniqueBranches(es: seq<Entry>) {
    forall i, j :: 0 <= i < j < |es| && es[i].addr == es[j].addr ==> es[i].addr == 0
  }

  lemma {:induction false} Unique(n: nat, h: seq<Taken>)
    requires n > 0
    ensures UniqueBranches(RunSet(n, h))
  {
    if h != [] {
      Unique(n, h[..|h| - 1]);
      UpdateUnique(RunSet(n, h[..|h| - 1]), h[|h| - 1]);
    }
  }

  lemma UpdateUnique(es: seq<Entry>, u: Taken)
    requires es != [] && UniqueBranches(es)
    ensures UniqueBranches(UpdateSet(es, u))
  {
    var k, es' := Find(es, u.baddr), UpdateSet(es, u);
    forall i, j | 0 <= i < j < |es'| && es'[i].addr == es'[j].addr
      ensures es'[i].addr == 0
    {
      var j' := if j <= k then j - 1 else j;
      assert es'[j] == es[j'] && es'[0].addr == u.baddr;
      if i > 0 {
        assert es'[i] == es[if i <= k then i - 1 else i];
      } else if j' > k {
        assert es[k].addr == es[j'].addr;
      }
    }
  }

  lemma {:induction false} OthersDiffer(n: nat, h: seq<Taken>, i: nat, j: nat)
    requires n > 0 && i < j < n && RunSet(n, h)[j].addr != 0
    ensures RunSet(n, h)[i].addr != RunSet(n, h)[j].addr
  {
    Unique(n, h);
  }

  /** The assertion of the scan: no two entries match. */
  ghost predicate TwoMatch(es: seq<Entry>, a: nat) {
    exists i, j :: 0 <= i < j < |es| && es[i].addr == a && es[j].addr == a
  }

  /** Branch address zero is entered only into sets that it fills. */
  lemma {:induction false} ZeroFills(n: nat, h: seq<Taken>)
    requires Survives(n, h)
    ensures 0 in Recent(h) ==> |Recent(h)| >= n
  {
    if h != [] {
      var front, u := h[..|h| - 1], h[|h| - 1];
      assert h == front + [u];
      SurvivesSnoc(n, front, u);
      ZeroFills(n, front);
      ToHeadZero(Recent(front), u.baddr);
      RecentStep(front, u);
    }
  }

  lemma ToHeadZero(r: seq<nat>, x: nat)
    ensures |ToHead(r, x)| == if x in r then |r| else |r| + 1
    ensures 0 in ToHead(r, x) ==> x == 0 || 0 in r
  {
    var m, k := Remove(r, x), IndexOf(r, x);
    assert x in r <==> k < |r|;
    if 0 in m {
      var q :| 0 <= q < |m| && m[q] == 0;
      assert r[if q < k then q else q + 1] == 0;
    }
  }

  /** Two entries of address zero are empty entries. */
  lemma ZeroTwice(es: seq<Entry>, r: seq<nat>)
    requires Holds(es, r) && Distinct(r) && (0 in r ==> |r| >= |es|)
    ensures TwoMatch(es, 0) <==> |r| + 2 <= |es|
    ensures |r| + 2 <= |es| ==> forall k :: 0 <= k < |es| && es[k].addr == 0 ==> es[k] == EMPTY
  {
    if |r| + 2 <= |es| {
      assert es[|es| - 2] == EMPTY && es[|es| - 1] == EMPTY;
      assert forall k :: 0 <= k < |r| ==> r[k] in r && es[k].addr == r[k];
    } else {
      forall i, j | 0 <= i < j < |es| && es[i].addr == 0
        ensures es[j].addr != 0
      {
        assert r[i] == 0;
      }
    }
  }

  lemma {:induction false} SetShape(n: nat, h: seq<Taken>)
    requires n > 0 && Survives(n, h)
    ensures var es, r := RunSet(n, h), Recent(h); Holds(es, r) && Distinct(r) && (0 in r ==> |r| >= |es|)
  {
    MostRecentFirst(n, h);
    RecentMembers(h, 0);
    ZeroFills(n, h);
  }

  /** It fails exactly for branch address zero in a set where at most n - 2
      different branches have been taken so far. */
  lemma {:induction false} ScanAssertion(n: nat, h: seq<Taken>, a: nat)
    requires n > 0 && Survives(n, h)
    ensures TwoMatch(RunSet(n, h), a) <==> a == 0 && |Recent(h)| + 2 <= n
  {
    SetShape(n, h);
    ZeroTwice(RunSet(n, h), Recent(h));
    Unique(n, h);
  }

  /** So any matching entry says what the first one says. */
  lemma {:induction false} MatchesAgree(n: nat, h: seq<Taken>, k: nat)
    requires n > 0 && Survives(n, h) && k < n
    ensures var es := RunSet(n, h); Find(es, es[k].addr) < n && es[Find(es, es[k].addr)] == es[k]
  {
    SetShape(n, h);
    ZeroTwice(RunSet(n, h), Recent(h));
    Unique(n, h);
    FirstAgrees(RunSet(n, h), k);
  }

  lemma {:induction false} FirstAgrees(es: seq<Entry>, k: nat)
    requires k < |es| && UniqueBranches(es)
    requires TwoMatch(es, 0) ==> forall j :: 0 <= j < |es| && es[j].addr == 0 ==> es[j] == EMPTY
    ensures Find(es, es[k].addr) < |es| && es[Find(es, es[k].addr)] == es[k]
  {
  }

  /** It does fail: address zero in a set that nothing was entered in yet. */
  lemma {:induction false} ScanAssertionWitness(n: nat)
    requires n > 1
    ensures TwoMatch(RunSet(n, []), 0)
  {
    ScanAssertion(n, [], 0);
  }

  // ---- the table in place ----

  /** Way x is the only one of the list with address a, if any is. */
  ghost predicate OnlyMatch(addr: seq<nat>, nodes: seq<nat>, a: nat, x: int)
    requires Within(nodes, |addr|)
  {
    forall k {:trigger nodes[k]} :: 0 <= k < |nodes| && addr[nodes[k]] == a ==> nodes[k] == x
  }

  function ContentsOf(addr: seq<nat>, target: seq<nat>, nodes: seq<nat>): (es: seq<Entry>)
    requires |addr| == |target| && Within(nodes, |addr|)
    ensures |es| == |nodes|
    ensures forall k :: 0 <= k < |nodes| ==> es[k] == Entry(addr[nodes[k]], target[nodes[k]])
  {
    seq(|nodes|, k requires 0 <= k < |nodes| => Entry(addr[nodes[k]], target[nodes[k]]))
  }

  /** The numbers lo to lo + n - 1, each once. */
  ghost predicate Ways(nodes: seq<nat>, lo: nat, n: nat) {
    |nodes| == n && Distinct(nodes) && forall k :: 0 <= k < n ==> lo <= nodes[k] < lo + n
  }

  lemma WaysCover(nodes: seq<nat>, lo: nat, n: nat, x: nat)
    requires Ways(nodes, lo, n) && lo <= x < lo + n
    ensures x in nodes
  {
    var s := seq(n, k requires 0 <= k < n => nodes[k] - lo);
    Covers(s, n, x - lo);
    var k :| 0 <= k < |s| && s[k] == x - lo;
    assert nodes[k] == x;
  }

  function LinksOf(next: seq<int>, prev: seq<int>, nodes: seq<nat>): WayLinks
    requires nodes != []
  {
    WayLinks(next, prev, nodes[0], nodes[|nodes| - 1])
  }

  datatype Table = TableOf(next: seq<int>, prev: seq<int>, addr: seq<nat>, target: seq<nat>) {
    predicate Sized(n: nat) { |next| == |prev| == |addr| == |target| == n }
  }

  /** The lists of one set, whose entries are those of a history. */
  ghost predicate SetOk(t: Table, nodes: seq<nat>, lo: nat, n: nat, h: seq<Taken>) {
    && n > 0 && Ways(nodes, lo, n) && t.Sized(|t.next|) && lo + n <= |t.next|
    && IsWayList(LinksOf(t.next, t.prev, nodes), nodes)
    && ContentsOf(t.addr, t.target, nodes) == RunSet(n, h)
  }

  ghost predicate SameIn(t: Table, t': Table, lo: nat, n: nat) {
    && t.Sized(|t.next|) && t'.Sized(|t.next|) && lo + n <= |t.next|
    && forall x :: lo <= x < lo + n ==> SameAt(t, t', x)
  }

  ghost predicate SameAt(t: Table, t': Table, x: nat)
    requires t.Sized(|t.next|) && t'.Sized(|t.next|) && x < |t.next|
  {
    t'.next[x] == t.next[x] && t'.prev[x] == t.prev[x] && t'.addr[x] == t.addr[x] && t'.target[x] == t.target[x]
  }

  lemma SetFrame(t: Table, t': Table, nodes: seq<nat>, lo: nat, n: nat, h: seq<Taken>)
    requires SetOk(t, nodes, lo, n, h) && SameIn(t, t', lo, n)
    ensures SetOk(t', nodes, lo, n, h)
  {
    forall k | 0 <= k < n
      ensures SameAt(t, t', nodes[k])
    {
    }
    ChainFrame(t.next, t'.next, nodes[0], nodes);
    assert IsBack(t'.prev, nodes[|nodes| - 1], nodes);
    assert ContentsOf(t'.addr, t'.target, nodes) == ContentsOf(t.addr, t.target, nodes);
  }

  /** The splice that makes entry x the head of its list. */
  function NextToHead(next: seq<int>, prev: seq<int>, head: nat, x: nat): (r: seq<int>)
    requires x < |next| == |prev| && 0 <= prev[x] < |next|
    ensures |r| == |next|
  {
    next[prev[x] := next[x]][x := head]
  }

  function PrevToHead(next: seq<int>, prev: seq<int>, head: nat, x: nat): (r: seq<int>)
    requires x < |next| == |prev| && head < |prev| && (next[x] == NULL || 0 <= next[x] < |prev|)
    ensures |r| == |prev|
  {
    (if next[x] == NULL then prev else prev[next[x] := prev[x]])[x := NULL][head := x]
  }

  lemma MoveToHead(next: seq<int>, prev: seq<int>, nodes: seq<nat>, x: nat)
    requires nodes != [] && IsWayList(LinksOf(next, prev, nodes), nodes) && x in nodes && x != nodes[0]
    ensures x < |next| == |prev| && 0 <= prev[x] < |next| && (next[x] == NULL || 0 <= next[x] < |prev|)
    ensures nodes[0] < |prev|
    ensures var next', prev' := NextToHead(next, prev, nodes[0], x), PrevToHead(next, prev, nodes[0], x);
            IsWayList(LinksOf(next', prev', ToHead(nodes, x)), ToHead(nodes, x))
  {
    var l := LinksOf(next, prev, nodes);
    NodeLinks(l, nodes, x);
    RemoveDistinct(nodes, x);
    var rest := Remove(nodes, x);
    assert rest[0] == nodes[0];
    if x == nodes[|nodes| - 1] {
      UnlinkLast(l, nodes);
      ChainPush(next[prev[x] := NULL], nodes[0], rest, x);
      BackPushHead(prev, prev[x], rest, x);
    } else {
      UnlinkInner(l, nodes, x);
      ChainPush(next[prev[x] := next[x]], nodes[0], rest, x);
      BackPushHead(prev[next[x] := prev[x]], l.tail, rest, x);
    }
    HeadAndTail(nodes, x);
  }

  lemma HeadAndTail(nodes: seq<nat>, x: nat)
    requires Distinct(nodes) && x in nodes && x != nodes[0]
    ensures var rest, all := Remove(nodes, x), ToHead(nodes, x);
            rest != [] && all[0] == x && all[|all| - 1] == rest[|rest| - 1]
    ensures x != nodes[|nodes| - 1] ==> Remove(nodes, x)[|nodes| - 2] == nodes[|nodes| - 1]
  {
  }

  /** The entries after way x became the head of its list and was refilled. */
  lemma {:induction false} MovedContents(addr: seq<nat>, target: seq<nat>, nodes: seq<nat>, x: nat, e: Entry)
    requires |addr| == |target| && Distinct(nodes) && x in nodes && Within(nodes, |addr|)
    ensures IndexOf(nodes, x) < |nodes| && Within(ToHead(nodes, x), |addr|)
    ensures ContentsOf(addr[x := e.addr], target[x := e.target], ToHead(nodes, x))
         == [e] + RemoveAt(ContentsOf(addr, target, nodes), IndexOf(nodes, x))
  {
    MovedWithin(nodes, x, |addr|);
    var rest, k := Remove(nodes, x), IndexOf(nodes, x);
    var es, addr', target' := ContentsOf(addr, target, nodes), addr[x := e.addr], target[x := e.target];
    assert ToHead(nodes, x) == [x] + rest && rest == RemoveAt(nodes, k);
    ContentsCons(addr', target', x, rest);
    ContentsUntouched(addr, target, rest, x, e);
    assert ContentsOf(addr, target, rest) == RemoveAt(es, k);
  }

  lemma MovedWithin(nodes: seq<nat>, x: nat, n: nat)
    requires Distinct(nodes) && x in nodes && Within(nodes, n)
    ensures Within(ToHead(nodes, x), n) && Within(Remove(nodes, x), n) && x !in Remove(nodes, x)
  {
    RemoveDistinct(nodes, x);
    var rest := Remove(nodes, x);
    forall k | 0 <= k < |rest|
      ensures rest[k] < n
    {
      assert rest[k] in nodes;
    }
  }

  lemma ContentsCons(addr: seq<nat>, target: seq<nat>, x: nat, rest: seq<nat>)
    requires |addr| == |target| && x < |addr| && Within(rest, |addr|)
    ensures ContentsOf(addr, target, [x] + rest) == [Entry(addr[x], target[x])] + ContentsOf(addr, target, rest)
  {
  }

  lemma ContentsUntouched(addr: seq<nat>, target: seq<nat>, rest: seq<nat>, x: nat, e: Entry)
    requires |addr| == |target| && x < |addr| && Within(rest, |addr|) && x !in rest
    ensures ContentsOf(addr[x := e.addr], target[x := e.target], rest) == ContentsOf(addr, target, rest)
  {
    assert forall k :: 0 <= k < |rest| ==> rest[k] in rest;
  }

  /** A matching way refilled at the head is an update that hits. */
  lemma HitContents(addr: seq<nat>, target: seq<nat>, nodes: seq<nat>, x: nat, u: Taken)
    requires |addr| == |target| && Distinct(nodes) && x in nodes
    requires Within(nodes, |addr|)
    requires x < |addr| && addr[x] == u.baddr && OnlyMatch(addr, nodes, u.baddr, x)
    ensures Within(ToHead(nodes, x), |addr|)
    ensures ContentsOf(addr, if u.correct then target else target[x := u.btarget], ToHead(nodes, x))
         == UpdateSet(ContentsOf(addr, target, nodes), u)
  {
    MovedContents(addr, target, nodes, x, if u.correct then Entry(addr[x], target[x]) else Entry(u.baddr, u.btarget));
    UpdateSame(addr, x);
    UpdateSame(target, x);
    FindIsWay(addr, target, nodes, x, u.baddr);
  }

  lemma UpdateSame(s: seq<nat>, x: nat)
    requires x < |s|
    ensures s[x := s[x]] == s
  {
  }

  lemma {:induction false} FindIsWay(addr: seq<nat>, target: seq<nat>, nodes: seq<nat>, x: nat, a: nat)
    requires |addr| == |target| && Distinct(nodes) && x in nodes && Within(nodes, |addr|)
    requires x < |addr| && addr[x] == a && OnlyMatch(addr, nodes, a, x)
    ensures Find(ContentsOf(addr, target, nodes), a) == IndexOf(nodes, x)
  {
    var es, k := ContentsOf(addr, target, nodes), Find(ContentsOf(addr, target, nodes), a);
    assert es[IndexOf(nodes, x)].addr == a;
    assert nodes[k] == x;
  }

  /** The tail refilled at the head is an update that misses. */
  lemma MissContents(addr: seq<nat>, target: seq<nat>, nodes: seq<nat>, u: Taken)
    requires |addr| == |target| && Distinct(nodes) && nodes != []
    requires Within(nodes, |addr|)
    requires OnlyMatch(addr, nodes, u.baddr, NULL)
    ensures var x := nodes[|nodes| - 1];
            && Within(ToHead(nodes, x), |addr|)
            && ContentsOf(addr[x := u.baddr], target[x := u.btarget], ToHead(nodes, x))
               == UpdateSet(ContentsOf(addr, target, nodes), u)
  {
    var es, n: int := ContentsOf(addr, target, nodes), |nodes| - 1;
    IndexOfUnique(nodes, n);
    MovedContents(addr, target, nodes, nodes[n], Entry(u.baddr, u.btarget));
    assert RemoveAt(es, n) == es[..n];
    assert Find(es, u.baddr) == |es|;
  }

  /** What the source's splice and refill do to the table; nothing moves when x is the head. */
  function NextAfter(next: seq<int>, prev: seq<int>, head: nat, x: nat): (r: seq<int>)
    requires x < |next| == |prev| && (x != head ==> 0 <= prev[x] < |next|)
    ensures |r| == |next|
  {
    if x == head then next else NextToHead(next, prev, head, x)
  }

  function PrevAfter(next: seq<int>, prev: seq<int>, head: nat, x: nat): (r: seq<int>)
    requires x < |next| == |prev| && head < |prev| && (next[x] == NULL || 0 <= next[x] < |prev|)
    ensures |r| == |prev|
  {
    if x == head then prev else PrevToHead(next, prev, head, x)
  }

  function TableAfter(t: Table, head: nat, x: nat, u: Taken): (t': Table)
    requires t.Sized(|t.next|) && x < |t.next| && head < |t.next|
    requires (x != head ==> 0 <= t.prev[x] < |t.next|) && (t.next[x] == NULL || 0 <= t.next[x] < |t.next|)
    ensures t'.Sized(|t.next|)
  {
    TableOf(NextAfter(t.next, t.prev, head, x), PrevAfter(t.next, t.prev, head, x), t.addr[x := u.baddr],
            if t.addr[x] == u.baddr && u.correct then t.target else t.target[x := u.btarget])
  }

  /** The neighbours of an entry are other entries of its set. */
  lemma SpliceSafe(next: seq<int>, prev: seq<int>, nodes: seq<nat>, x: nat)
    requires nodes != [] && IsWayList(LinksOf(next, prev, nodes), nodes) && x in nodes
    ensures x < |next| == |prev| && nodes[0] < |next|
    ensures next[x] == NULL || (0 <= next[x] < |next| && next[x] != x && next[x] in nodes)
    ensures x != nodes[0] ==> 0 <= prev[x] < |next| && prev[x] != x && prev[x] in nodes
    ensures |nodes| > 1 ==> prev[x] != next[x]
  {
    var k: int := IndexOf(nodes, x);
    assert next[nodes[k]] == At(nodes, k + 1) && prev[nodes[k]] == At(nodes, k - 1);
  }

  lemma UpdatedLinks(t: Table, nodes: seq<nat>, lo: nat, n: nat, u: Taken, x: nat)
    requires n > 0 && Ways(nodes, lo, n) && t.Sized(|t.next|) && lo + n <= |t.next|
    requires IsWayList(LinksOf(t.next, t.prev, nodes), nodes) && x in nodes
    ensures (x != nodes[0] ==> 0 <= t.prev[x] < |t.next|) && (t.next[x] == NULL || 0 <= t.next[x] < |t.next|)
    ensures var t' := TableAfter(t, nodes[0], x, u);
            IsWayList(LinksOf(t'.next, t'.prev, ToHead(nodes, x)), ToHead(nodes, x))
  {
    SpliceSafe(t.next, t.prev, nodes, x);
    if x == nodes[0] {
      ToHeadIdentity(nodes);
    } else {
      MoveToHead(t.next, t.prev, nodes, x);
    }
  }

  lemma UpdatedFrame(t: Table, nodes: seq<nat>, lo: nat, n: nat, u: Taken, x: nat)
    requires n > 0 && Ways(nodes, lo, n) && t.Sized(|t.next|) && lo + n <= |t.next|
    requires IsWayList(LinksOf(t.next, t.prev, nodes), nodes) && x in nodes
    ensures (x != nodes[0] ==> 0 <= t.prev[x] < |t.next|) && (t.next[x] == NULL || 0 <= t.next[x] < |t.next|)
    ensures forall y :: 0 <= y < |t.next| && !(lo <= y < lo + n) ==> SameAt(t, TableAfter(t, nodes[0], x, u), y)
  {
    SpliceSafe(t.next, t.prev, nodes, x);
    assert forall y :: y in nodes ==> lo <= y < lo + n;
  }

  lemma WaysMoved(nodes: seq<nat>, lo: nat, n: nat, x: nat)
    requires Ways(nodes, lo, n) && x in nodes
    ensures Ways(ToHead(nodes, x), lo, n)
  {
    MoveKeepsMembers(nodes, x);
    var moved := ToHead(nodes, x);
    forall k | 0 <= k < n
      ensures lo <= moved[k] < lo + n
    {
      assert moved[k] in nodes;
    }
  }

  lemma {:induction false} UpdatedContents(addr: seq<nat>, target: seq<nat>, nodes: seq<nat>, n: nat, h: seq<Taken>,
                                           u: Taken, x: nat)
    requires |addr| == |target| && Within(nodes, |addr|) && Distinct(nodes) && |nodes| == n && x in nodes && x < |addr|
    requires n > 0 && ContentsOf(addr, target, nodes) == RunSet(n, h)
    requires OnlyMatch(addr, nodes, u.baddr, if addr[x] == u.baddr then x else NULL)
    requires addr[x] != u.baddr ==> x == nodes[n - 1]
    ensures Within(ToHead(nodes, x), |addr|)
    ensures ContentsOf(addr[x := u.baddr], if addr[x] == u.baddr && u.correct then target else target[x := u.btarget],
                       ToHead(nodes, x)) == RunSet(n, h + [u])
  {
    assert (h + [u])[..|h|] == h;
    if addr[x] == u.baddr {
      assert addr[x := u.baddr] == addr;
      HitContents(addr, target, nodes, x, u);
    } else {
      MissContents(addr, target, nodes, u);
    }
  }

  /** One update of set s: its list and contents follow, and no other set changes. */
  lemma SetUpdated(t: Table, nodes: seq<nat>, lo: nat, n: nat, h: seq<Taken>, u: Taken, x: nat)
    requires SetOk(t, nodes, lo, n, h) && x in nodes && x < |t.addr|
    requires OnlyMatch(t.addr, nodes, u.baddr, if t.addr[x] == u.baddr then x else NULL)
    requires t.addr[x] != u.baddr ==> x == nodes[n - 1]
    ensures (x != nodes[0] ==> 0 <= t.prev[x] < |t.next|) && (t.next[x] == NULL || 0 <= t.next[x] < |t.next|)
    ensures SetOk(TableAfter(t, nodes[0], x, u), ToHead(nodes, x), lo, n, h + [u])
    ensures forall y :: 0 <= y < |t.next| && !(lo <= y < lo + n) ==> SameAt(t, TableAfter(t, nodes[0], x, u), y)
  {
    UpdatedLinks(t, nodes, lo, n, u, x);
    UpdatedFrame(t, nodes, lo, n, u, x);
    WaysMoved(nodes, lo, n, x);
    UpdatedContents(t.addr, t.target, nodes, n, h, u, x);
  }

  /** Where the entries of a set begin. */
  function Base(s: nat, assoc: nat): nat {
    s * assoc
  }

  ghost predicate AllOk(t: Table, order: seq<seq<nat>>, history: seq<seq<Taken>>, sets: nat, assoc: nat) {
    && t.Sized(Base(sets, assoc)) && |order| == |history| == sets
    && forall s {:trigger order[s]} :: 0 <= s < sets ==> SetOk(t, order[s], Base(s, assoc), assoc, history[s])
  }

  lemma AllUpdated(t: Table, order: seq<seq<nat>>, history: seq<seq<Taken>>, sets: nat, assoc: nat, s: nat, u: Taken,
                   x: nat)
    requires AllOk(t, order, history, sets, assoc) && s < sets && x in order[s] && x < |t.addr|
    requires OnlyMatch(t.addr, order[s], u.baddr, if t.addr[x] == u.baddr then x else NULL)
    requires t.addr[x] != u.baddr ==> x == order[s][assoc - 1]
    ensures (x != order[s][0] ==> 0 <= t.prev[x] < |t.next|) && (t.next[x] == NULL || 0 <= t.next[x] < |t.next|)
    ensures AllOk(TableAfter(t, order[s][0], x, u), order[s := ToHead(order[s], x)], history[s := history[s] + [u]],
                  sets, assoc)
  {
    SetUpdated(t, order[s], Base(s, assoc), assoc, history[s], u, x);
    Assemble(t, TableAfter(t, order[s][0], x, u), order, history, sets, assoc, s, ToHead(order[s], x),
             history[s] + [u]);
  }

  lemma Assemble(t: Table, t': Table, order: seq<seq<nat>>, history: seq<seq<Taken>>, sets: nat, assoc: nat,
                 s: nat, nodes: seq<nat>, h: seq<Taken>)
    requires AllOk(t, order, history, sets, assoc) && s < sets && t'.Sized(|t.next|)
    requires SetOk(t', nodes, Base(s, assoc), assoc, h)
    requires forall y :: 0 <= y < |t.next| && !(Base(s, assoc) <= y < Base(s, assoc) + assoc) ==> SameAt(t, t', y)
    ensures AllOk(t', order[s := nodes], history[s := h], sets, assoc)
  {
    forall r | 0 <= r < sets && r != s
      ensures SetOk(t', order[r], Base(r, assoc), assoc, history[r])
    {
      OtherSet(t, t', s, r, assoc, order[r], history[r]);
    }
  }

  lemma OtherSet(t: Table, t': Table, s: nat, r: nat, assoc: nat, nodes: seq<nat>, h: seq<Taken>)
    requires SetOk(t, nodes, Base(r, assoc), assoc, h) && r != s && t'.Sized(|t.next|)
    requires forall y :: 0 <= y < |t.next| && !(Base(s, assoc) <= y < Base(s, assoc) + assoc) ==> SameAt(t, t', y)
    ensures SetOk(t', nodes, Base(r, assoc), assoc, h)
  {
    Apart(s, r, assoc);
    SetFrame(t, t', nodes, Base(r, assoc), assoc, h);
  }

  /** Matching entries of a table and of its contents. */
  lemma MatchTwice(addr: seq<nat>, target: seq<nat>, nodes: seq<nat>, x: nat, y: nat, a: nat)
    requires |addr| == |target| && Within(nodes, |addr|) && x in nodes && y in nodes && x != y
    requires x < |addr| && y < |addr| && addr[x] == a && addr[y] == a
    ensures TwoMatch(ContentsOf(addr, target, nodes), a)
  {
    var es, i, j := ContentsOf(addr, target, nodes), IndexOf(nodes, x), IndexOf(nodes, y);
    assert es[i].addr == a && es[j].addr == a;
  }

  lemma MatchOnce(addr: seq<nat>, target: seq<nat>, nodes: seq<nat>, x: int, a: nat)
    requires |addr| == |target| && Within(nodes, |addr|) && Distinct(nodes) && OnlyMatch(addr, nodes, a, x)
    ensures !TwoMatch(ContentsOf(addr, target, nodes), a)
  {
    var es := ContentsOf(addr, target, nodes);
    forall i | 0 <= i < |es| && es[i].addr == a
      ensures nodes[i] == x
    {
    }
  }

  class Btb {
    const sets: nat
    const assoc: nat
    var next: seq<int>
    var prev: seq<int>
    var addr: seq<nat>
    var target: seq<nat>

    ghost var order: seq<seq<nat>>      // the list of each set, head first
    ghost var history: seq<seq<Taken>>  // the updates of each set

    ghost predicate Valid()
      reads this
    {
      && sets > 0 && assoc > 0 && AllOk(TableOf(next, prev, addr, target), order, history, sets, assoc)
      && Placed(history, sets) && AllSurvive(history, assoc)
    }

    /** The BTB part of bpred_create. */
    constructor (sets: nat, assoc: nat)
      requires IsPow2(sets) && IsPow2(assoc)
      ensures Valid() && this.sets == sets && this.assoc == assoc
      ensures history == seq(sets, _ => [])
    {
      this.sets, this.assoc := sets, assoc;
      var ns, ps := ThreadSets(sets, assoc);
      next, prev := ns, ps;
      addr, target := seq(Base(sets, assoc), _ => 0), seq(Base(sets, assoc), _ => 0);
      order, history := InitialOrder(sets, assoc), seq(sets, _ => []);
      new;
      forall s | 0 <= s < sets
        ensures SetOk(TableOf(next, prev, addr, target), order[s], Base(s, assoc), assoc, history[s])
      {
        InitialSet(TableOf(next, prev, addr, target), sets, s, assoc);
      }
    }

    /** Chain the ways of each set in table order. */
    static method ThreadSets(sets: nat, assoc: nat) returns (next: seq<int>, prev: seq<int>)
      requires assoc > 0
      ensures |next| == |prev| == Base(sets, assoc) && Threaded(next, prev, assoc)
    {
      var n := Base(sets, assoc);
      next, prev := seq(n, _ => NULL), seq(n, _ => NULL);
      if assoc > 1 {
        var i := 0;
        while i < n
          invariant 0 <= i <= n && |next| == |prev| == n
          invariant forall k {:trigger next[k]} :: 0 <= k < i ==>
                      next[k] == if k % assoc != assoc - 1 then k + 1 else NULL
          invariant forall k {:trigger prev[k]} :: 0 <= k <= i && k < n ==>
                      prev[k] == if k % assoc != 0 then k - 1 else NULL
          invariant forall k {:trigger prev[k]} :: i < k < n ==> prev[k] == NULL
          invariant forall k {:trigger next[k]} :: i <= k < n ==> next[k] == NULL
        {
          Consecutive(sets, assoc, i);
          if i % assoc != assoc - 1 {
            next, prev := next[i := i + 1], prev[i + 1 := i];
          }
          i := i + 1;
        }
      }
    }

    /** The BTB part of bpred_lookup: the first matching entry of the set. */
    method Lookup(baddr: nat) returns (hit: bool, t: nat)
      requires Valid()
      ensures var es := RunSet(assoc, history[SetOf(baddr, sets)]);
              && (hit <==> Find(es, baddr) < assoc)
              && (hit ==> t == es[Find(es, baddr)].target)
    {
      var s := SetOf(baddr, sets);
      assert Survives(assoc, history[s]);
      assert SetOk(TableOf(next, prev, addr, target), order[s], Base(s, assoc), assoc, history[s]);
      var i := FindSlot(Base(s, assoc), baddr);
      SlotMeans(TableOf(next, prev, addr, target), order[s], Base(s, assoc), assoc, history[s], baddr, i);
      hit := i < Base(s, assoc) + assoc;
      t := if hit then target[i] else 0;
    }

    /** The first slot from lo on with the address, or the end of the set. */
    method FindSlot(lo: nat, baddr: nat) returns (i: nat)
      requires lo + assoc <= |addr|
      ensures lo <= i <= lo + assoc && (i < lo + assoc ==> addr[i] == baddr)
      ensures forall y :: lo <= y < i ==> addr[y] != baddr
    {
      i := lo;
      while i < lo + assoc && addr[i] != baddr
        invariant lo <= i <= lo + assoc
        invariant forall y :: lo <= y < i ==> addr[y] != baddr
      {
        i := i + 1;
      }
    }

    /** The scan of bpred_update: the entry that matches, and both ends of the
        list. It stops when the assertion that only one entry matches fails. */
    method Scan(s: nat, baddr: nat) returns (fired: bool, pbtb: int, lruhead: int, lruitem: int)
      requires Valid() && s < sets && assoc > 1
      ensures Within(order[s], |addr|) && |order[s]| == assoc
      ensures fired <==> TwoMatch(RunSet(assoc, history[s]), baddr)
      ensures !fired ==> OnlyMatch(addr, order[s], baddr, pbtb)
      ensures !fired ==> pbtb == NULL || (pbtb in order[s] && addr[pbtb] == baddr)
      ensures !fired ==> lruhead == order[s][0] && lruitem == order[s][assoc - 1]
    {
      ghost var nodes, t := order[s], TableOf(next, prev, addr, target);
      var lo := Base(s, assoc);
      var i := lo;
      pbtb, lruhead, lruitem := NULL, NULL, NULL;
      assert SetOk(t, nodes, lo, assoc, history[s]);
      while i < lo + assoc
        invariant lo <= i <= lo + assoc && Scanned(t, nodes, lo, i, baddr, pbtb, lruhead, lruitem)
      {
        ScanStep(t, nodes, lo, assoc, history[s], i);
        ScanNext(t, nodes, lo, assoc, history[s], i, baddr, pbtb, lruhead, lruitem);
        if addr[i] == baddr {
          if pbtb != NULL {
            WaysCover(nodes, lo, assoc, pbtb);
            MatchTwice(addr, target, nodes, pbtb, i, baddr);
            fired := true;
            return;
          }
          pbtb := i;
        }
        assert prev[i] != next[i];
        if prev[i] == NULL {
          assert lruhead == NULL;
          lruhead := i;
        }
        if next[i] == NULL {
          assert lruitem == NULL;
          lruitem := i;
        }
        i := i + 1;
      }
      assert lruhead != NULL && lruitem != NULL;
      if pbtb != NULL {
        WaysCover(nodes, lo, assoc, pbtb);
      }
      MatchOnce(addr, target, nodes, pbtb, baddr);
      fired := false;
    }

    /** Take entry x out of its list and put it in front of the head. */
    method Splice(x: nat, lruhead: nat)
      requires x < |next| == |prev| && lruhead < |prev| && x != lruhead
      requires 0 <= prev[x] < |next| && prev[x] != x && (next[x] == NULL || (0 <= next[x] < |prev| && next[x] != x))
      modifies this`next, this`prev
      ensures next == NextAfter(old(next), old(prev), lruhead, x)
      ensures prev == PrevAfter(old(next), old(prev), lruhead, x)
    {
      if prev[x] != NULL {
        next := next[prev[x] := next[x]];
      }
      if next[x] != NULL {
        prev := prev[next[x] := prev[x]];
      }
      next, prev := next[x := lruhead], prev[x := NULL];
      prev := prev[lruhead := x];
    }

    /** Entry x to the head of its list, and the branch into it. */
    method Enter(x: nat, lruhead: nat, u: Taken)
      requires TableOf(next, prev, addr, target).Sized(|next|) && x < |next| && lruhead < |next|
      requires x != lruhead ==> 0 <= prev[x] < |next| && prev[x] != x
      requires next[x] == NULL || (0 <= next[x] < |next| && next[x] != x)
      modifies this`next, this`prev, this`addr, this`target
      ensures TableOf(next, prev, addr, target) == TableAfter(old(TableOf(next, prev, addr, target)), lruhead, x, u)
    {
      if x != lruhead {
        Splice(x, lruhead);
      }
      Refill(x, u);
    }

    /** Record the branch in entry x of set s, the one that matches or the tail. */
    method Commit(s: nat, x: nat, lruhead: nat, u: Taken)
      requires Valid() && s == SetOf(u.baddr, sets) && Within(order[s], |addr|) && |order[s]| == assoc
      requires x in order[s] && lruhead == order[s][0] && x < |addr|
      requires OnlyMatch(addr, order[s], u.baddr, if addr[x] == u.baddr then x else NULL)
      requires addr[x] != u.baddr ==> x == order[s][assoc - 1]
      requires x != lruhead ==> 0 <= prev[x] < |next| && prev[x] != x
      requires next[x] == NULL || (0 <= next[x] < |prev| && next[x] != x)
      requires SurvivesAt(assoc, history[s], u.baddr)
      modifies this
      ensures Valid() && history == old(history)[s := old(history)[s] + [u]]
    {
      ghost var t := TableOf(next, prev, addr, target);
      AllUpdated(t, order, history, sets, assoc, s, u, x);
      AllSurviveUpdate(history, assoc, s, u);
      PlacedUpdate(history, sets, u);
      Enter(x, lruhead, u);
      order, history := order[s := ToHead(order[s], x)], history[s := history[s] + [u]];
    }

    /** The BTB part of bpred_update for a taken branch. */
    method Update(u: Taken) returns (fired: bool)
      requires Valid()
      modifies this
      ensures Valid()
      ensures fired <==> u.baddr == 0 && |Recent(old(history)[SetOf(0, sets)])| + 2 <= assoc
      ensures history == if fired then old(history)
                         else old(history)[SetOf(u.baddr, sets) := old(history)[SetOf(u.baddr, sets)] + [u]]
    {
      var s := SetOf(u.baddr, sets);
      var x, lruhead;
      fired, x, lruhead := Choose(s, u.baddr);
      ScanAssertion(assoc, history[s], u.baddr);
      if !fired {
        Commit(s, x, lruhead, u);
      }
    }

    /** The entry to update: the one that matches, or else the tail of the list. */
    method Choose(s: nat, baddr: nat) returns (fired: bool, x: nat, lruhead: nat)
      requires Valid() && s < sets
      ensures fired <==> TwoMatch(RunSet(assoc, history[s]), baddr)
      ensures Within(order[s], |addr|) && |order[s]| == assoc
      ensures !fired ==> x in order[s] && lruhead == order[s][0] && x < |addr|
      ensures !fired ==> OnlyMatch(addr, order[s], baddr, if addr[x] == baddr then x else NULL)
      ensures !fired && addr[x] != baddr ==> x == order[s][assoc - 1]
      ensures !fired && x != lruhead ==> 0 <= prev[x] < |next| && prev[x] != x
      ensures !fired ==> next[x] == NULL || (0 <= next[x] < |prev| && next[x] != x)
    {
      ghost var nodes, t := order[s], TableOf(next, prev, addr, target);
      assert SetOk(t, nodes, Base(s, assoc), assoc, history[s]);
      if assoc > 1 {
        var pbtb, head, lruitem;
        fired, pbtb, head, lruitem := Scan(s, baddr);
        if fired {
          x, lruhead := 0, 0;
          return;
        }
        x, lruhead := if pbtb == NULL then lruitem else pbtb, head;
      } else {
        fired, x, lruhead := false, Base(s, assoc), Base(s, assoc);
        WaysCover(nodes, x, assoc, x);
        assert nodes == [x];
      }
      SpliceSafe(next, prev, nodes, x);
    }

    method Refill(x: nat, u: Taken)
      requires x < |addr| == |target|
      modifies this`addr, this`target
      ensures addr == old(addr)[x := u.baddr]
      ensures target == if old(addr)[x] == u.baddr && u.correct then old(target) else old(target)[x := u.btarget]
    {
      if addr[x] == u.baddr {
        if !u.correct {
          target := target[x := u.btarget];
        }
      } else {
        addr, target := addr[x := u.baddr], target[x := u.btarget];
      }
    }
  }

  lemma {:induction false} SlotMeans(t: Table, nodes: seq<nat>, lo: nat, n: nat, h: seq<Taken>, a: nat, i: nat)
    requires SetOk(t, nodes, lo, n, h) && lo <= i <= lo + n && (i < lo + n ==> t.addr[i] == a)
    requires forall y :: lo <= y < i ==> t.addr[y] != a
    requires Survives(n, h)
    ensures i < lo + n <==> Find(RunSet(n, h), a) < n
    ensures i < lo + n ==> RunSet(n, h)[Find(RunSet(n, h), a)].target == t.target[i]
  {
    var es := RunSet(n, h);
    if i < lo + n {
      WaysCover(nodes, lo, n, i);
      MatchesAgree(n, h, IndexOf(nodes, i));
    } else {
      forall k | 0 <= k < n
        ensures es[k].addr != a
      {
        assert es[k] == Entry(t.addr[nodes[k]], t.target[nodes[k]]);
      }
    }
  }

  lemma ScanStep(t: Table, nodes: seq<nat>, lo: nat, n: nat, h: seq<Taken>, i: nat)
    requires SetOk(t, nodes, lo, n, h) && lo <= i < lo + n && n > 1
    ensures i in nodes && t.prev[i] != t.next[i]
    ensures t.prev[i] == NULL <==> i == nodes[0]
    ensures t.next[i] == NULL <==> i == nodes[n - 1]
  {
    WaysCover(nodes, lo, n, i);
    NodeLinks(LinksOf(t.next, t.prev, nodes), nodes, i);
    SpliceSafe(t.next, t.prev, nodes, i);
  }

  /** The scan up to slot i: the one match so far, and the list ends seen. */
  ghost predicate Scanned(t: Table, nodes: seq<nat>, lo: nat, i: nat, a: nat, pbtb: int, head: int, item: int) {
    && nodes != [] && lo <= i <= |t.addr|
    && (pbtb == NULL || (lo <= pbtb < i && t.addr[pbtb] == a))
    && (forall y :: lo <= y < i && t.addr[y] == a ==> y == pbtb)
    && head == (if nodes[0] < i then nodes[0] else NULL)
    && item == (if nodes[|nodes| - 1] < i then nodes[|nodes| - 1] else NULL)
  }

  lemma ScanNext(t: Table, nodes: seq<nat>, lo: nat, n: nat, h: seq<Taken>, i: nat, a: nat, pbtb: int, head: int,
                 item: int)
    requires SetOk(t, nodes, lo, n, h) && lo <= i < lo + n && n > 1
    requires Scanned(t, nodes, lo, i, a, pbtb, head, item)
    ensures t.prev[i] == NULL ==> head == NULL
    ensures t.next[i] == NULL ==> item == NULL
    ensures t.addr[i] != a || pbtb == NULL ==>
              Scanned(t, nodes, lo, i + 1, a, if t.addr[i] == a then i else pbtb,
                      if t.prev[i] == NULL then i else head, if t.next[i] == NULL then i else item)
  {
    ScanStep(t, nodes, lo, n, h, i);
  }

  ghost predicate Threaded(next: seq<int>, prev: seq<int>, assoc: nat)
    requires assoc > 0 && |next| == |prev|
  {
    && (forall k {:trigger next[k]} :: 0 <= k < |next| ==> next[k] == if k % assoc != assoc - 1 then k + 1 else NULL)
    && (forall k {:trigger prev[k]} :: 0 <= k < |prev| ==> prev[k] == if k % assoc != 0 then k - 1 else NULL)
  }

  lemma Consecutive(sets: nat, assoc: nat, i: nat)
    requires assoc > 0 && i < Base(sets, assoc)
    ensures i % assoc != assoc - 1 ==> i + 1 < Base(sets, assoc) && (i + 1) % assoc == i % assoc + 1
    ensures i % assoc == assoc - 1 ==> (i + 1) % assoc == 0
  {
    var q, r := i / assoc, i % assoc;
    assert i == q * assoc + r;
    if r != assoc - 1 {
      DivModUnique(i + 1, assoc, q, r + 1);
      Apart(q, sets, assoc);
      Apart(sets, q, assoc);
    } else {
      DivModUnique(i + 1, assoc, q + 1, 0);
    }
  }

  ghost function InitialWays(lo: nat, n: nat): (nodes: seq<nat>)
    ensures Ways(nodes, lo, n) && forall k :: 0 <= k < n ==> nodes[k] == lo + k
  {
    seq(n, k requires 0 <= k < n => lo + k)
  }

  ghost function InitialOrder(sets: nat, assoc: nat): (order: seq<seq<nat>>)
    ensures |order| == sets && forall s :: 0 <= s < sets ==> order[s] == InitialWays(Base(s, assoc), assoc)
  {
    seq(sets, s requires 0 <= s < sets => InitialWays(Base(s, assoc), assoc))
  }

  ghost predicate Zeros(s: seq<nat>) {
    forall k :: 0 <= k < |s| ==> s[k] == 0
  }

  lemma InitialLinks(next: seq<int>, prev: seq<int>, s: nat, assoc: nat)
    requires assoc > 0 && Base(s, assoc) + assoc <= |next| == |prev| && Threaded(next, prev, assoc)
    ensures IsWayList(LinksOf(next, prev, InitialWays(Base(s, assoc), assoc)), InitialWays(Base(s, assoc), assoc))
  {
    var lo, nodes := Base(s, assoc), InitialWays(Base(s, assoc), assoc);
    forall k | 0 <= k < assoc
      ensures next[nodes[k]] == At(nodes, k + 1) && prev[nodes[k]] == At(nodes, k - 1)
    {
      DivModUnique(lo + k, assoc, s, k);
    }
  }

  lemma InitialSet(t: Table, sets: nat, s: nat, assoc: nat)
    requires s < sets && assoc > 0 && t.Sized(Base(sets, assoc)) && Threaded(t.next, t.prev, assoc)
    requires Zeros(t.addr) && Zeros(t.target)
    ensures SetOk(t, InitialWays(Base(s, assoc), assoc), Base(s, assoc), assoc, [])
  {
    Apart(s, sets, assoc);
    InitialLinks(t.next, t.prev, s, assoc);
    assert ContentsOf(t.addr, t.target, InitialWays(Base(s, assoc), assoc)) == RunSet(assoc, []);
  }
}
