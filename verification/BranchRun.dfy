/** Predicting and resolving branches in a row (lab3/sim-bpred.c over lab3/bpred.c):
    what each prediction is, said by the branches before it alone. */
module BranchRun {
  import opened Pow2
  import opened FlatMemory
  import opened Options
  import opened Recency
  import D = Directions
  import B = BranchTargets
  import P = BranchPredictor

  // ---- a set of the target buffer, by its taken branches ----

  /** The last time that branch a was taken. */
  ghost predicate LatestUpdate(h: seq<B.Taken>, a: nat, j: int) {
    0 <= j < |h| && h[j].baddr == a && forall k :: j < k < |h| ==> h[k].baddr != a
  }

  /** The branches taken after update j. */
  ghost function TakenAfter(h: seq<B.Taken>, j: int): set<nat> {
    set k | 0 <= k < |h| && j < k :: h[k].baddr
  }

  /** Branch a has been taken, and since then fewer than n others. */
  ghost predicate Kept(h: seq<B.Taken>, a: nat, n: nat) {
    exists j :: LatestUpdate(h, a, j) && |TakenAfter(h, j)| < n
  }

  lemma {:induction false} LastTakenMeans(h: seq<B.Taken>, a: nat)
    ensures var t := B.LastTaken(h, a);
            && (t > 0 ==> LatestUpdate(h, a, t - 1)) && (t == 0 ==> forall k :: 0 <= k < |h| ==> h[k].baddr != a)
  {
    if h != [] && h[|h| - 1].baddr != a {
      LastTakenMeans(h[..|h| - 1], a);
    }
  }

  lemma {:induction false} LatestOnce(h: seq<B.Taken>, a: nat, j: int)
    requires LatestUpdate(h, a, j)
    ensures B.LastTaken(h, a) == j + 1
  {
    LastTakenMeans(h, a);
  }

  lemma {:induction false} SinceLast(h: seq<B.Taken>, x: nat, j: int)
    requires j >= 0
    ensures x in TakenAfter(h, j) <==> B.LastTaken(h, x) > j + 1
  {
    LastTakenMeans(h, x);
    var t := B.LastTaken(h, x);
    if t > j + 1 {
      assert h[t - 1].baddr == x;
    }
  }

  lemma {:induction false} TakenSince(h: seq<B.Taken>, r: seq<nat>, i: nat, j: int, x: nat)
    requires r == B.Recent(h) && i < |r| && 0 <= j == B.LastTaken(h, r[i]) - 1
    ensures x in TakenAfter(h, j) <==> x in r[..i]
  {
    B.RecentOrder(h);
    B.RecentMembers(h, x);
    SinceLast(h, x, j);
    if x in r[..i] {
      var k :| 0 <= k < i && r[k] == x;
      assert B.LastTaken(h, r[k]) > B.LastTaken(h, r[i]);
    }
    if x in TakenAfter(h, j) {
      var k :| 0 <= k < |r| && r[k] == x;
      assert k < i;
    }
  }

  lemma FrontSize(r: seq<nat>, i: nat, s: set<nat>)
    requires i <= |r| && Distinct(r) && forall x :: x in s <==> x in r[..i]
    ensures |s| == i
  {
    var front := r[..i];
    assert Distinct(front);
    SizeOfDistinct(front);
    assert s == set k | 0 <= k < |front| :: front[k];
  }

  /** A branch is listed behind those taken since its last time. */
  lemma {:induction false} RecentPosition(h: seq<B.Taken>, r: seq<nat>, i: nat, a: nat, j: int)
    requires r == B.Recent(h) && i < |r| && r[i] == a && j == B.LastTaken(h, a) - 1
    ensures LatestUpdate(h, a, j) && |TakenAfter(h, j)| == i
  {
    B.RecentMembers(h, a);
    LastTakenMeans(h, a);
    forall x: nat ensures x in TakenAfter(h, j) <==> x in r[..i] {
      TakenSince(h, r, i, j, x);
    }
    FrontSize(r, i, TakenAfter(h, j));
  }

  lemma {:induction false} KeptIsRecent(h: seq<B.Taken>, r: seq<nat>, a: nat, n: nat)
    requires r == B.Recent(h)
    ensures Kept(h, a, n) <==> exists i :: 0 <= i < |r| && i < n && r[i] == a
  {
    if Kept(h, a, n) {
      var j :| LatestUpdate(h, a, j) && |TakenAfter(h, j)| < n;
      LatestOnce(h, a, j);
      B.RecentMembers(h, a);
      var i :| 0 <= i < |r| && r[i] == a;
      RecentPosition(h, r, i, a, j);
    }
    if i :| 0 <= i < |r| && i < n && r[i] == a {
      RecentPosition(h, r, i, a, B.LastTaken(h, a) - 1);
    }
  }

  lemma {:induction false} FindsHeld(es: seq<B.Entry>, r: seq<nat>, a: nat)
    requires B.Holds(es, r) && a != 0
    ensures var k := B.Find(es, a);
            && (k < |es| ==> k < |r| && r[k] == a)
            && (k < |es| <==> exists i :: 0 <= i < |r| && i < |es| && r[i] == a)
  {
    var k := B.Find(es, a);
    if i :| 0 <= i < |r| && i < |es| && r[i] == a {
      assert es[i].addr == a;
    }
    if k < |es| {
      assert es[k].addr == a;
    }
  }

  /** A branch is in the table exactly when it is kept, with its latest target. */
  lemma {:induction false} FindsKept(n: nat, h: seq<B.Taken>, a: nat)
    requires n > 0 && a != 0 && B.Survives(n, h) && B.Honest(n, h)
    ensures var k := B.Find(B.RunSet(n, h), a);
            && (k < n <==> Kept(h, a, n))
            && (k < n ==> forall j :: LatestUpdate(h, a, j) ==> B.RunSet(n, h)[k].target == h[j].btarget)
  {
    var es := B.RunSet(n, h);
    var k := B.Find(es, a);
    B.MostRecentFirst(n, h);
    KeptIsRecent(h, B.Recent(h), a, n);
    FindsHeld(es, B.Recent(h), a);
    if k < n {
      B.LatestTargets(n, h, k);
      forall j | LatestUpdate(h, a, j) ensures es[k].target == h[j].btarget {
        LatestOnce(h, a, j);
      }
    }
  }

  /** The set of a branch: bit k of its number is bit k + 3 of the address. */
  lemma {:induction false} SetBits(baddr: nat, sets: nat, k: nat)
    requires IsPow2(sets) && D.TwoTo(k) < sets
    ensures D.Bit(B.SetOf(baddr, sets), k) == D.Bit(baddr, k + 3)
  {
    D.ShiftBy3(baddr, k);
    D.BitMod(baddr / 8, sets, k);
  }

  // ---- a run of branches ----

  /** A resolved branch: the address executed next, and what the decoder says of it. */
  datatype Branch = Branch(baddr: nat, btarget: nat, npc: nat, op: P.Op, isCall: bool, isReturn: bool) {
    /** A control instruction; a return is an indirect jump. */
    predicate Sound() { op.ctrl && (isReturn ==> op.indir) }

    predicate Jumped() { npc != Wrap(baddr + 8) }
  }

  /** A predictor: what its two-bit counters begin with, its target buffer, and whether
      it has a return address stack. */
  datatype Setup = Setup(kind: D.Kind, bimod: seq<nat>, sets: nat, assoc: nat, ras: bool) {
    ghost predicate Valid() {
      sets > 0 && assoc > 0 && (kind == D.TwoBit ==> IsPow2(|bimod|) && D.InRange(bimod))
    }

    /** The return address stack predicts this branch, and nothing else is trained. */
    predicate Popped(b: Branch) { b.isReturn && ras }

    /** This branch enters the target buffer. */
    predicate Enters(b: Branch) { b.Jumped() && !Popped(b) }
  }

  /** The outcomes of the conditional branches that share a counter. */
  function Outcomes(c: Setup, bs: seq<Branch>, i: nat): seq<bool>
    requires IsPow2(|c.bimod|)
  {
    if bs == [] then []
    else
      var b := bs[|bs| - 1];
      Outcomes(c, bs[..|bs| - 1], i)
        + if !b.op.uncond && !c.Popped(b) && D.BimodIndex(b.baddr, |c.bimod|) == i then [b.Jumped()] else []
  }

  /** The counter of a branch: each outcome of the branches that share it moved it by one. */
  function Level(c: Setup, bs: seq<Branch>, a: nat): (r: nat)
    requires IsPow2(|c.bimod|) && D.InRange(c.bimod)
    ensures r <= 3
  {
    var i := D.BimodIndex(a, |c.bimod|);
    D.TrainedBy(c.bimod[i], Outcomes(c, bs, i))
  }

  /** Branch a last jumped at position j. */
  ghost predicate LastJump(c: Setup, bs: seq<Branch>, a: nat, j: int) {
    && 0 <= j < |bs| && bs[j].baddr == a && c.Enters(bs[j])
    && forall k :: j < k < |bs| && bs[k].baddr == a ==> !c.Enters(bs[k])
  }

  /** The branches of the same set that have jumped since. */
  ghost function JumpedSince(c: Setup, bs: seq<Branch>, a: nat, j: int): set<nat>
    requires c.sets > 0
  {
    set k | 0 <= k < |bs| && j < k && c.Enters(bs[k]) && B.SetOf(bs[k].baddr, c.sets) == B.SetOf(a, c.sets)
      :: bs[k].baddr
  }

  /** Branch a has jumped, and since then fewer others of its set than it has ways. */
  ghost predicate Stored(c: Setup, bs: seq<Branch>, a: nat)
    requires c.sets > 0
  {
    exists j :: LastJump(c, bs, a, j) && |JumpedSince(c, bs, a, j)| < c.assoc
  }

  /** The target that the buffer gives a branch: where it last jumped to, while stored. */
  ghost predicate Towards(c: Setup, bs: seq<Branch>, a: nat, target: nat)
    requires c.sets > 0
  {
    if Stored(c, bs, a) then forall j :: LastJump(c, bs, a, j) ==> target == bs[j].npc else target == 1
  }

  /** What is predicted for a branch after the branches bs; 0 stands for "not taken" and
      1 for "taken, target unknown". */
  ghost predicate Foreseen(c: Setup, bs: seq<Branch>, b: Branch, target: nat)
    requires c.Valid()
  {
    b.baddr != 0 && !c.Popped(b) ==>
      && (b.op.uncond ==> Towards(c, bs, b.baddr, target))
      && (!b.op.uncond && c.kind == D.TwoBit ==>
            if Level(c, bs, b.baddr) >= 2 then Towards(c, bs, b.baddr, target) else target == 0)
      && (!b.op.uncond ==> target == 0 || Towards(c, bs, b.baddr, target))
  }

  // ---- the updates of a set follow the run ----

  /** The updates of set s are those of the branches that entered it. */
  ghost predicate Logged(c: Setup, h: seq<B.Taken>, bs: seq<Branch>, s: nat)
    requires c.sets > 0
  {
    if bs == [] then h == []
    else
      var n, b := |bs| - 1, bs[|bs| - 1];
      if c.Enters(b) && B.SetOf(b.baddr, c.sets) == s then
        h != [] && h[|h| - 1].baddr == b.baddr && h[|h| - 1].btarget == b.npc && Logged(c, h[..|h| - 1], bs[..n], s)
      else Logged(c, h, bs[..n], s)
  }

  lemma LoggedSnoc(c: Setup, h: seq<B.Taken>, bs: seq<Branch>, s: nat, b: Branch, u: B.Taken)
    requires c.sets > 0 && Logged(c, h, bs, s) && u.baddr == b.baddr && u.btarget == b.npc
    ensures Logged(c, if c.Enters(b) && B.SetOf(b.baddr, c.sets) == s then h + [u] else h, bs + [b], s)
  {
    assert (bs + [b])[..|bs|] == bs && (h + [u])[..|h|] == h;
  }

  lemma {:induction false} LoggedJump(c: Setup, h: seq<B.Taken>, bs: seq<Branch>, s: nat, a: nat, j: int)
    returns (i: int)
    requires c.sets > 0 && Logged(c, h, bs, s) && s == B.SetOf(a, c.sets) && LastJump(c, bs, a, j)
    ensures LatestUpdate(h, a, i) && h[i].btarget == bs[j].npc && TakenAfter(h, i) == JumpedSince(c, bs, a, j)
  {
    var n := |bs| - 1;
    var front := bs[..n];
    if j == n {
      i := |h| - 1;
    } else {
      assert LastJump(c, front, a, j);
      var enters := c.Enters(bs[n]) && B.SetOf(bs[n].baddr, c.sets) == s;
      var h' := if enters then h[..|h| - 1] else h;
      i := LoggedJump(c, h', front, s, a, j);
      JumpedSinceSnoc(c, front, bs[n], a, j);
      assert bs == front + [bs[n]];
      if enters {
        TakenAfterSnoc(h', h[|h| - 1], i);
        assert h == h' + [h[|h| - 1]];
      }
    }
  }

  lemma JumpedSinceSnoc(c: Setup, bs: seq<Branch>, b: Branch, a: nat, j: int)
    requires c.sets > 0 && 0 <= j < |bs|
    ensures JumpedSince(c, bs + [b], a, j) == JumpedSince(c, bs, a, j)
                + if c.Enters(b) && B.SetOf(b.baddr, c.sets) == B.SetOf(a, c.sets) then {b.baddr} else {}
  {
    var all, was := JumpedSince(c, bs + [b], a, j), JumpedSince(c, bs, a, j);
    forall x | x in was ensures x in all {
      var k :| 0 <= k < |bs| && j < k && c.Enters(bs[k]) && B.SetOf(bs[k].baddr, c.sets) == B.SetOf(a, c.sets)
            && bs[k].baddr == x;
      assert (bs + [b])[k] == bs[k];
    }
    assert (bs + [b])[|bs|] == b;
  }

  lemma TakenAfterSnoc(h: seq<B.Taken>, u: B.Taken, i: int)
    requires 0 <= i < |h|
    ensures TakenAfter(h + [u], i) == TakenAfter(h, i) + {u.baddr}
  {
    var all, was := TakenAfter(h + [u], i), TakenAfter(h, i);
    forall x | x in was ensures x in all {
      var k :| 0 <= k < |h| && i < k && h[k].baddr == x;
      assert (h + [u])[k] == h[k];
    }
    assert (h + [u])[|h|] == u;
  }

  lemma {:induction false} LoggedEntry(c: Setup, h: seq<B.Taken>, bs: seq<Branch>, s: nat, i: int) returns (j: int)
    requires c.sets > 0 && Logged(c, h, bs, s) && 0 <= i < |h|
    ensures 0 <= j < |bs| && bs[j].baddr == h[i].baddr && c.Enters(bs[j])
  {
    var n := |bs| - 1;
    var enters := c.Enters(bs[n]) && B.SetOf(bs[n].baddr, c.sets) == s;
    if enters && i == |h| - 1 {
      j := n;
    } else {
      j := LoggedEntry(c, if enters then h[..|h| - 1] else h, bs[..n], s, i);
    }
  }

  lemma {:induction false} LastJumpExists(c: Setup, bs: seq<Branch>, a: nat, j0: int) returns (j: int)
    requires 0 <= j0 < |bs| && bs[j0].baddr == a && c.Enters(bs[j0])
    ensures LastJump(c, bs, a, j)
  {
    var n := |bs| - 1;
    if bs[n].baddr == a && c.Enters(bs[n]) {
      j := n;
    } else {
      j := LastJumpExists(c, bs[..n], a, j0);
    }
  }

  lemma LastJumpOnce(c: Setup, bs: seq<Branch>, a: nat, j: int, j': int)
    requires LastJump(c, bs, a, j) && LastJump(c, bs, a, j')
    ensures j == j'
  {
  }

  /** The buffer keeps the branches that the run says it does. */
  lemma {:induction false} KeptIsStored(c: Setup, h: seq<B.Taken>, bs: seq<Branch>, a: nat)
    requires c.sets > 0 && Logged(c, h, bs, B.SetOf(a, c.sets))
    ensures Kept(h, a, c.assoc) <==> Stored(c, bs, a)
    ensures forall i, j :: LatestUpdate(h, a, i) && LastJump(c, bs, a, j) ==> h[i].btarget == bs[j].npc
  {
    if Kept(h, a, c.assoc) {
      var i :| LatestUpdate(h, a, i) && |TakenAfter(h, i)| < c.assoc;
      var j0 := LoggedEntry(c, h, bs, B.SetOf(a, c.sets), i);
      var j := LastJumpExists(c, bs, a, j0);
      var i' := LoggedJump(c, h, bs, B.SetOf(a, c.sets), a, j);
      assert i' == i;
    }
    if Stored(c, bs, a) {
      var j :| LastJump(c, bs, a, j) && |JumpedSince(c, bs, a, j)| < c.assoc;
      var i := LoggedJump(c, h, bs, B.SetOf(a, c.sets), a, j);
    }
    forall i, j | LatestUpdate(h, a, i) && LastJump(c, bs, a, j) ensures h[i].btarget == bs[j].npc {
      var i' := LoggedJump(c, h, bs, B.SetOf(a, c.sets), a, j);
      assert i' == i;
    }
  }

  /** The answer of a set for a branch. */
  function Answer(c: Setup, h: seq<B.Taken>, a: nat): nat
    requires c.assoc > 0
  {
    var es := B.RunSet(c.assoc, h);
    var k := B.Find(es, a);
    if k == c.assoc then 1 else es[k].target
  }

  /** What the buffer answers is what the run foresees. */
  lemma {:induction false} AnswerForeseen(c: Setup, h: seq<B.Taken>, bs: seq<Branch>, a: nat)
    requires c.Valid() && a != 0 && Logged(c, h, bs, B.SetOf(a, c.sets))
    requires B.Survives(c.assoc, h) && B.Honest(c.assoc, h)
    ensures Towards(c, bs, a, Answer(c, h, a))
  {
    FindsKept(c.assoc, h, a);
    KeptIsStored(c, h, bs, a);
    if Stored(c, bs, a) {
      var i :| LatestUpdate(h, a, i) && |TakenAfter(h, i)| < c.assoc;
    }
  }

  // ---- the predictor along a run ----

  ghost predicate CountersFollow(c: Setup, bimod: seq<nat>, bs: seq<Branch>)
    requires c.Valid()
  {
    c.kind == D.TwoBit ==>
      |bimod| == |c.bimod| && forall i :: 0 <= i < |bimod| ==> bimod[i] == D.TrainedBy(c.bimod[i], Outcomes(c, bs, i))
  }

  ghost predicate SetFollows(c: Setup, h: seq<B.Taken>, bs: seq<Branch>, s: nat)
    requires c.Valid()
  {
    Logged(c, h, bs, s) && B.Honest(c.assoc, h)
  }

  ghost predicate TargetsFollow(c: Setup, history: seq<seq<B.Taken>>, bs: seq<Branch>)
    requires c.Valid()
  {
    |history| == c.sets && forall s {:trigger history[s]} :: 0 <= s < c.sets ==> SetFollows(c, history[s], bs, s)
  }

  lemma {:induction false} OutcomesSnoc(c: Setup, bs: seq<Branch>, b: Branch, i: nat)
    requires IsPow2(|c.bimod|)
    ensures Outcomes(c, bs + [b], i)
         == if !b.op.uncond && !c.Popped(b) && D.BimodIndex(b.baddr, |c.bimod|) == i
            then Outcomes(c, bs, i) + [b.Jumped()]
            else Outcomes(c, bs, i)
  {
    assert (bs + [b])[..|bs|] == bs && Outcomes(c, bs, i) + [] == Outcomes(c, bs, i);
  }

  /** The counter that a two-bit predictor uses for a branch. */
  function TwoBitRecord(t: D.Tables, b: Branch): D.DirUpdate
    requires IsPow2(|t.bimod|)
  {
    if b.op.uncond then D.NO_UPDATE
    else D.NO_UPDATE.(pdir1 := Some(D.BimodCtr(D.BimodIndex(b.baddr, |t.bimod|))))
  }

  lemma CountersStep(c: Setup, t: D.Tables, t': D.Tables, bs: seq<Branch>, b: Branch, u: D.DirUpdate)
    requires c.Valid() && CountersFollow(c, t.bimod, bs) && D.SameSizes(t, t') && t.Saturating()
    requires c.kind == D.TwoBit && !c.Popped(b)
    requires u == TwoBitRecord(t, b)
    requires forall d :: t'.Has(d) ==> t'.Get(d) == D.NextCounter(t, b.Jumped(), u, d)
    ensures CountersFollow(c, t'.bimod, bs + [b])
  {
    forall i | 0 <= i < |t'.bimod| ensures t'.bimod[i] == D.TrainedBy(c.bimod[i], Outcomes(c, bs + [b], i)) {
      assert t'.Get(D.BimodCtr(i)) == D.NextCounter(t, b.Jumped(), u, D.BimodCtr(i));
      var outs := Outcomes(c, bs, i);
      OutcomesSnoc(c, bs, b, i);
      assert (outs + [b.Jumped()])[..|outs|] == outs;
      assert t.bimod[i] == D.TrainedBy(c.bimod[i], outs);
    }
  }

  lemma CountersAfter(c: Setup, t: D.Tables, t': D.Tables, bs: seq<Branch>, b: Branch, u: D.DirUpdate)
    requires c.Valid() && CountersFollow(c, t.bimod, bs) && t.Saturating()
    requires c.kind == D.TwoBit ==> u == TwoBitRecord(t, b)
    requires c.kind == D.TwoBit && c.Popped(b) ==> t' == t
    requires c.kind == D.TwoBit && !c.Popped(b) ==>
               D.SameSizes(t, t') && forall d :: t'.Has(d) ==> t'.Get(d) == D.NextCounter(t, b.Jumped(), u, d)
    ensures CountersFollow(c, t'.bimod, bs + [b])
  {
    if c.kind == D.TwoBit {
      if c.Popped(b) {
        forall i ensures Outcomes(c, bs + [b], i) == Outcomes(c, bs, i) {
          OutcomesSnoc(c, bs, b, i);
        }
      } else {
        CountersStep(c, t, t', bs, b, u);
      }
    }
  }

  lemma {:induction false} HonestSnoc(n: nat, h: seq<B.Taken>, u: B.Taken)
    requires n > 0 && B.Honest(n, h) && B.HonestAt(B.RunSet(n, h), u)
    ensures B.Honest(n, h + [u])
  {
    var all := h + [u];
    forall i | 0 <= i < |all| ensures B.HonestAt(B.RunSet(n, all[..i]), all[i]) {
      if i < |h| {
        assert all[..i] == h[..i];
      } else {
        assert all[..i] == h;
      }
    }
  }

  /** A branch that jumped where the prediction said is one whose entry had the target. */
  lemma {:induction false} CorrectIsHonest(n: nat, h: seq<B.Taken>, b: Branch, target: nat)
    requires n > 0 && b.Jumped() && B.Survives(n, h)
    requires var k := B.Find(B.RunSet(n, h), b.baddr);
             target == 0 || target == if k == n then 1 else B.RunSet(n, h)[k].target
    ensures B.HonestAt(B.RunSet(n, h), B.Taken(b.baddr, b.npc, Fetched(b, target) == b.npc))
  {
    var es := B.RunSet(n, h);
    forall k | 0 <= k < |es| && es[k].addr == b.baddr && Fetched(b, target) == b.npc ensures es[k].target == b.npc {
      B.MatchesAgree(n, h, k);
    }
  }

  lemma TargetsStep(c: Setup, history: seq<seq<B.Taken>>, bs: seq<Branch>, b: Branch, u: B.Taken)
    requires c.Valid() && TargetsFollow(c, history, bs) && u.baddr == b.baddr && u.btarget == b.npc
    requires c.Enters(b) ==> B.HonestAt(B.RunSet(c.assoc, history[B.SetOf(b.baddr, c.sets)]), u)
    ensures var s := B.SetOf(b.baddr, c.sets);
            TargetsFollow(c, if c.Enters(b) then history[s := history[s] + [u]] else history, bs + [b])
  {
    forall s | 0 <= s < c.sets
      ensures SetFollows(c, if c.Enters(b) && B.SetOf(b.baddr, c.sets) == s then history[s] + [u] else history[s],
                         bs + [b], s)
    {
      assert SetFollows(c, history[s], bs, s);
      LoggedSnoc(c, history[s], bs, s, b, u);
      if c.Enters(b) && B.SetOf(b.baddr, c.sets) == s {
        HonestSnoc(c.assoc, history[s], u);
      }
    }
  }

  /** Where the simulator fetches next. */
  function Fetched(b: Branch, target: nat): nat {
    if target == 0 then Wrap(b.baddr + 8) else target
  }

  /** The predictor after the branches of a run. */
  ghost predicate Follows(p: P.Predictor, c: Setup, bs: seq<Branch>)
    reads p, p.dir, p.ras, p.ras.stack, p.btb
  {
    && p.Valid() && !p.Stateless() && c.Valid()
    && c.kind == p.kind && c.sets == p.btb.sets && c.assoc == p.btb.assoc && (c.ras <==> p.ras.size > 0)
    && CountersFollow(c, p.dir.tables.bimod, bs) && TargetsFollow(c, p.btb.history, bs)
  }

  /** The answer of the buffer and the counter of a branch make the prediction foreseen;
      and calling it correct if it was is honest. */
  lemma {:induction false} AnswersForeseen(c: Setup, h: seq<B.Taken>, bimod: seq<nat>, bs: seq<Branch>, b: Branch,
                                           counter: nat, target: nat)
    requires c.Valid() && SetFollows(c, h, bs, B.SetOf(b.baddr, c.sets)) && B.Survives(c.assoc, h)
    requires CountersFollow(c, bimod, bs) && !c.Popped(b)
    requires c.kind == D.TwoBit && !b.op.uncond ==> counter == bimod[D.BimodIndex(b.baddr, |c.bimod|)]
    requires !b.op.uncond && counter < 2 ==> target == 0
    requires b.op.uncond || counter >= 2 ==> target == Answer(c, h, b.baddr)
    ensures Foreseen(c, bs, b, target)
    ensures b.Jumped() ==> B.HonestAt(B.RunSet(c.assoc, h), B.Taken(b.baddr, b.npc, Fetched(b, target) == b.npc))
  {
    if b.baddr != 0 {
      AnswerForeseen(c, h, bs, b.baddr);
    }
    if b.Jumped() {
      CorrectIsHonest(c.assoc, h, b, target);
    }
  }

  /** bpred_lookup for the next branch of a run. */
  method LookUp(p: P.Predictor, b: Branch, ghost c: Setup, ghost bs: seq<Branch>)
    returns (target: nat, rec: P.Record)
    requires Follows(p, c, bs) && b.Sound()
    modifies p.ras, p.ras.stack
    ensures Follows(p, c, bs) && D.Issued(p.dir.tables, rec.dir) && (rec.ras <==> c.Popped(b))
    ensures Foreseen(c, bs, b, target)
    ensures c.Enters(b) ==> B.HonestAt(B.RunSet(c.assoc, p.btb.history[B.SetOf(b.baddr, c.sets)]),
                                       B.Taken(b.baddr, b.npc, Fetched(b, target) == b.npc))
    ensures c.kind == D.TwoBit ==> rec.dir == TwoBitRecord(p.dir.tables, b)
  {
    ghost var h := p.btb.history[B.SetOf(b.baddr, c.sets)];
    assert SetFollows(c, h, bs, B.SetOf(b.baddr, c.sets)) && B.Survives(c.assoc, h);
    var recover;
    target, rec, recover := p.Lookup(b.baddr, b.btarget, b.op, b.isCall, b.isReturn);
    if !c.Popped(b) {
      ghost var counter := if b.op.uncond then 0 else p.dir.tables.Get(rec.dir.pdir1.value);
      AnswersForeseen(c, h, p.dir.tables.bimod, bs, b, counter, target);
    }
  }

  /** Look up a branch and update with how it was resolved, as sim-bpred does. */
  method Execute(p: P.Predictor, b: Branch, ghost c: Setup, ghost bs: seq<Branch>)
    returns (target: nat, fired: bool)
    requires Follows(p, c, bs) && b.Sound()
    modifies p.dir, p.btb, p.ras, p.ras.stack
    ensures p.Valid() && Foreseen(c, bs, b, target)
    ensures fired ==> b.baddr == 0 && b.Jumped()
    ensures !fired ==> Follows(p, c, bs + [b])
  {
    var rec;
    target, rec := LookUp(p, b, c, bs);
    ghost var history, before := p.btb.history, p.dir.tables;
    fired := p.Update(b.baddr, b.npc, b.Jumped(), Fetched(b, target) == b.npc, b.op, rec);
    if !fired {
      TargetsStep(c, history, bs, b, B.Taken(b.baddr, b.npc, Fetched(b, target) == b.npc));
      CountersAfter(c, before, p.dir.tables, bs, b, rec.dir);
    }
  }

  ghost predicate AllForeseen(c: Setup, bs: seq<Branch>, targets: seq<nat>)
    requires c.Valid()
  {
    |targets| <= |bs| && forall n :: 0 <= n < |targets| ==> Foreseen(c, bs[..n], bs[n], targets[n])
  }

  lemma AllForeseenSnoc(c: Setup, bs: seq<Branch>, targets: seq<nat>, target: nat)
    requires c.Valid() && AllForeseen(c, bs, targets) && |targets| < |bs|
    requires Foreseen(c, bs[..|targets|], bs[|targets|], target)
    ensures AllForeseen(c, bs, targets + [target])
  {
  }

  ghost function SetupOf(p: P.Predictor): Setup
    reads p, p.dir
  {
    Setup(p.kind, p.dir.tables.bimod, p.btb.sets, p.btb.assoc, p.ras.size > 0)
  }

  lemma StartsFollowing(p: P.Predictor)
    requires p.Valid() && !p.Stateless() && p.btb.history == seq(p.btb.sets, _ => [])
    ensures Follows(p, SetupOf(p), [])
  {
  }

  ghost predicate AllSound(bs: seq<Branch>) {
    forall n :: 0 <= n < |bs| ==> bs[n].Sound()
  }

  /** The loop over the branches. */
  method ExecuteAll(p: P.Predictor, bs: seq<Branch>, ghost c: Setup) returns (targets: seq<nat>, fired: bool)
    requires Follows(p, c, []) && AllSound(bs)
    modifies p.dir, p.btb, p.ras, p.ras.stack
    ensures p.Valid() && AllForeseen(c, bs, targets)
    ensures if fired then targets != [] && bs[|targets| - 1].baddr == 0 else |targets| == |bs|
  {
    targets, fired := [], false;
    while |targets| < |bs|
      invariant |targets| <= |bs| && Follows(p, c, bs[..|targets|]) && AllForeseen(c, bs, targets)
    {
      var n := |targets|;
      assert bs[n].Sound();
      var target;
      target, fired := Execute(p, bs[n], c, bs[..n]);
      AllForeseenSnoc(c, bs, targets, target);
      targets := targets + [target];
      if fired {
        return;
      }
      assert bs[..n + 1] == bs[..n] + [bs[n]];
    }
  }

  /** The simulation of a run of branches: every prediction is the one that the branches
      before it say. It stops early only at a branch of address zero. */
  method RunBranches(p: P.Predictor, bs: seq<Branch>) returns (targets: seq<nat>, fired: bool)
    requires p.Valid() && !p.Stateless() && p.btb.history == seq(p.btb.sets, _ => []) && AllSound(bs)
    modifies p.dir, p.btb, p.ras, p.ras.stack
    ensures p.Valid() && old(SetupOf(p)).Valid() && AllForeseen(old(SetupOf(p)), bs, targets)
    ensures if fired then targets != [] && bs[|targets| - 1].baddr == 0 else |targets| == |bs|
  {
    StartsFollowing(p);
    targets, fired := ExecuteAll(p, bs, SetupOf(p));
  }

  // ---- what that means for one branch ----

  /** A conditional branch that jumped twice in a row is predicted where it jumped last. */
  lemma {:induction false} TakenTwice(c: Setup, bs: seq<Branch>, x: Branch, y: Branch, b: Branch, target: nat)
    requires c.Valid() && c.kind == D.TwoBit && x.baddr == y.baddr == b.baddr != 0
    requires !x.op.uncond && !y.op.uncond && !b.op.uncond && !c.Popped(x) && !c.Popped(y) && !c.Popped(b)
    requires x.Jumped() && y.Jumped() && Foreseen(c, bs + [x, y], b, target)
    ensures target == y.npc
  {
    TwoSeen(c, bs, x, y);
    var all := bs + [x, y];
    assert all[|bs| + 1] == y && LastJump(c, all, b.baddr, |bs| + 1);
    assert JumpedSince(c, all, b.baddr, |bs| + 1) == {};
  }

  /** One that went on twice in a row is predicted not taken. */
  lemma {:induction false} NotTakenTwice(c: Setup, bs: seq<Branch>, x: Branch, y: Branch, b: Branch, target: nat)
    requires c.Valid() && c.kind == D.TwoBit && x.baddr == y.baddr == b.baddr != 0
    requires !x.op.uncond && !y.op.uncond && !b.op.uncond && !c.Popped(x) && !c.Popped(y) && !c.Popped(b)
    requires !x.Jumped() && !y.Jumped() && Foreseen(c, bs + [x, y], b, target)
    ensures target == 0
  {
    TwoSeen(c, bs, x, y);
  }

  lemma TwoSeen(c: Setup, bs: seq<Branch>, x: Branch, y: Branch)
    requires c.Valid() && c.kind == D.TwoBit && x.baddr == y.baddr && x.Jumped() == y.Jumped()
    requires !x.op.uncond && !y.op.uncond && !c.Popped(x) && !c.Popped(y)
    ensures Level(c, bs + [x, y], x.baddr) >= 2 <==> x.Jumped()
  {
    var i := D.BimodIndex(x.baddr, |c.bimod|);
    OutcomesSnoc(c, bs, x, i);
    OutcomesSnoc(c, bs + [x], y, i);
    assert bs + [x, y] == bs + [x] + [y];
    D.TwoInARow(c.bimod[i], Outcomes(c, bs, i), x.Jumped());
  }

  /** An unconditional branch that never jumped has no known target. */
  lemma {:induction false} NeverJumped(c: Setup, bs: seq<Branch>, b: Branch, target: nat)
    requires c.Valid() && b.op.uncond && b.baddr != 0 && !c.Popped(b) && Foreseen(c, bs, b, target)
    requires forall x :: x in bs && x.baddr == b.baddr ==> !c.Enters(x)
    ensures target == 1
  {
  }

  /** It is predicted where it last jumped as long as fewer branches followed than a set has ways. */
  lemma {:induction false} JumpsAgain(c: Setup, bs: seq<Branch>, x: Branch, later: seq<Branch>, b: Branch, target: nat)
    requires c.Valid() && b.op.uncond && x.baddr == b.baddr != 0 && !c.Popped(b) && c.Enters(x)
    requires |later| < c.assoc && forall y :: y in later && y.baddr == b.baddr ==> !c.Enters(y)
    requires Foreseen(c, bs + [x] + later, b, target)
    ensures target == x.npc
  {
    var all := bs + [x] + later;
    var n := |bs|;
    forall k | n < k < |all| && all[k].baddr == b.baddr ensures !c.Enters(all[k]) {
      assert all[k] == later[k - n - 1] && all[k] in later;
    }
    assert all[n] == x && LastJump(c, all, b.baddr, n);
    FewJumped(c, all, b.baddr, n);
  }

  lemma {:induction false} FewJumped(c: Setup, bs: seq<Branch>, a: nat, j: nat)
    requires c.sets > 0 && j < |bs|
    ensures |JumpedSince(c, bs, a, j)| < |bs| - j
  {
    var n := |bs| - 1;
    if j == n {
      assert JumpedSince(c, bs, a, j) == {};
    } else {
      FewJumped(c, bs[..n], a, j);
      assert bs == bs[..n] + [bs[n]];
      JumpedSinceSnoc(c, bs[..n], bs[n], a, j);
    }
  }
}
