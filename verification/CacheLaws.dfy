/** Conservation laws of the cache statistics and of the bus, over every run. */
module CacheLaws {
  import opened Pow2
  import opened FlatMemory
  import opened Recency
  import opened CacheModel
  import opened Options
  import opened CacheTransparency

  // ---- counting lines ----

  function IsValid(l: Line): nat {
    if l.valid then 1 else 0
  }

  function IsDirty(l: Line): nat {
    if l.valid && l.dirty then 1 else 0
  }

  function CountLines(p: Line -> nat, lines: seq<Line>): nat {
    if lines == [] then 0 else p(lines[0]) + CountLines(p, lines[1..])
  }

  function Count(p: Line -> nat, sets: seq<WaySet>): nat {
    if sets == [] then 0 else CountLines(p, sets[0].lines) + Count(p, sets[1..])
  }

  lemma {:induction false} CountLinesUpdate(p: Line -> nat, lines: seq<Line>, w: nat, l: Line)
    requires w < |lines|
    ensures CountLines(p, lines[w := l]) + p(lines[w]) == CountLines(p, lines) + p(l)
  {
    if w == 0 {
      assert lines[w := l][1..] == lines[1..];
    } else {
      CountLinesUpdate(p, lines[1..], w - 1, l);
      assert lines[w := l][1..] == lines[1..][w - 1 := l];
    }
  }

  lemma {:induction false} CountUpdate(p: Line -> nat, sets: seq<WaySet>, i: nat, ws: WaySet)
    requires i < |sets|
    ensures Count(p, sets[i := ws]) + CountLines(p, sets[i].lines) == Count(p, sets) + CountLines(p, ws.lines)
  {
    if i == 0 {
      assert sets[i := ws][1..] == sets[1..];
    } else {
      CountUpdate(p, sets[1..], i - 1, ws);
      assert sets[i := ws][1..] == sets[1..][i - 1 := ws];
    }
  }

  lemma CountWithLine(p: Line -> nat, s: State, i: nat, w: nat, l: Line)
    requires i < |s.sets| && w < |s.sets[i].lines|
    ensures Count(p, WithLine(s, i, w, l).sets) + p(s.sets[i].lines[w]) == Count(p, s.sets) + p(l)
  {
    CountLinesUpdate(p, s.sets[i].lines, w, l);
    CountUpdate(p, s.sets, i, s.sets[i].(lines := s.sets[i].lines[w := l]));
  }

  lemma CountWithOrder(p: Line -> nat, s: State, i: nat, order: seq<nat>)
    requires i < |s.sets|
    ensures Count(p, WithOrder(s, i, order).sets) == Count(p, s.sets)
  {
    CountUpdate(p, s.sets, i, s.sets[i].(order := order));
  }

  // ---- the laws ----

  /** Valid blocks are the misses not yet replaced or invalidated. */
  ghost function BlockBalance(s: State): int {
    s.misses - s.replacements - s.invalidations - Count(IsValid, s.sets)
  }

  /** Every clean-to-dirty transition is written back or still in the cache. */
  ghost function DirtyBalance(s: State): int {
    s.dirtied - s.writebacks - Count(IsDirty, s.sets)
  }

  lemma DropBalance(c: Config, s: State, i: nat, w: nat)
    requires Shape(c, s) && i < c.nsets && w < c.assoc
    ensures BlockBalance(Drop(c, s, i, w)) == BlockBalance(s) + IsValid(s.sets[i].lines[w])
    ensures DirtyBalance(Drop(c, s, i, w)) == DirtyBalance(s)
  {
    var l := s.sets[i].lines[w];
    CountWithLine(IsValid, s, i, w, l.(valid := false));
    CountWithLine(IsDirty, s, i, w, l.(valid := false));
  }

  lemma EvictBalance(c: Config, s: State, i: nat, w: nat, now: int)
    requires Shape(c, s) && i < c.nsets && w < c.assoc
    ensures BlockBalance(Evict(c, s, i, w, now).state) == BlockBalance(s)
    ensures DirtyBalance(Evict(c, s, i, w, now).state) == DirtyBalance(s)
    ensures !Evict(c, s, i, w, now).state.sets[i].lines[w].valid
  {
    if s.sets[i].lines[w].valid {
      var s1 := s.(replacements := s.replacements + 1, busFree := Evict(c, s, i, w, now).state.busFree);
      DropBalance(c, s1, i, w);
    }
  }

  lemma FillBalance(c: Config, s: State, i: nat, w: nat, tag: nat, ready: int)
    requires Shape(c, s) && w < c.assoc && IsBlock(c, tag, i) && !s.sets[i].lines[w].valid
    ensures BlockBalance(Fill(c, s, i, w, tag, ready)) == BlockBalance(s) - 1
    ensures DirtyBalance(Fill(c, s, i, w, tag, ready)) == DirtyBalance(s)
    ensures Fill(c, s, i, w, tag, ready).sets[i].lines[w].valid
  {
    var l := Fill(c, s, i, w, tag, ready).sets[i].lines[w];
    CountWithLine(IsValid, s, i, w, l);
    CountWithLine(IsDirty, s, i, w, l);
  }

  lemma TouchBalance(c: Config, s: State, i: nat, w: nat, o: nat, cmd: Cmd)
    requires Shape(c, s) && i < c.nsets && w < c.assoc && o + cmd.Size() <= c.bsize
    requires s.sets[i].lines[w].valid
    ensures BlockBalance(Touch(c, s, i, w, o, cmd)) == BlockBalance(s)
    ensures DirtyBalance(Touch(c, s, i, w, o, cmd)) == DirtyBalance(s)
  {
    if cmd.Write? {
      var l := s.sets[i].lines[w];
      var l' := l.(dirty := true, data := Splice(l.data, o, cmd.bytes));
      CountWithLine(IsValid, s, i, w, l');
      CountWithLine(IsDirty, s, i, w, l');
    }
  }

  ghost predicate Balanced(s: State) {
    BlockBalance(s) == 0 && DirtyBalance(s) == 0
  }

  lemma RefillBalance(c: Config, s: State, i: nat, w: nat, tag: nat, now: int)
    requires Shape(c, s) && w < c.assoc && IsBlock(c, tag, i)
    ensures BlockBalance(Refill(c, s, i, w, tag, now).state) == BlockBalance(s) - 1
    ensures DirtyBalance(Refill(c, s, i, w, tag, now).state) == DirtyBalance(s)
    ensures Refill(c, s, i, w, tag, now).state.sets[i].lines[w].valid
  {
    var e := Evict(c, s, i, w, now);
    EvictBalance(c, s, i, w, now);
    FillBalance(c, e.state, i, w, tag, now + (e.lat + c.latency(e.state.calls)));
  }

  lemma MoveBalance(c: Config, s: State, i: nat, w: nat)
    requires Shape(c, s) && i < c.nsets && w < c.assoc
    ensures BlockBalance(MoveToHead(c, s, i, w)) == BlockBalance(MoveToTail(c, s, i, w)) == BlockBalance(s)
    ensures DirtyBalance(MoveToHead(c, s, i, w)) == DirtyBalance(MoveToTail(c, s, i, w)) == DirtyBalance(s)
  {
    CountWithOrder(IsValid, s, i, ToHead(s.sets[i].order, w));
    CountWithOrder(IsDirty, s, i, ToHead(s.sets[i].order, w));
    CountWithOrder(IsValid, s, i, ToTail(s.sets[i].order, w));
    CountWithOrder(IsDirty, s, i, ToTail(s.sets[i].order, w));
  }

  lemma HitBalanced(c: Config, s: State, i: nat, w: nat, b: nat, o: nat, cmd: Cmd, now: int)
    requires Shape(c, s) && i < c.nsets && w < c.assoc && o + cmd.Size() <= c.bsize
    requires Balanced(s) && s.sets[i].lines[w].valid
    ensures Balanced(Hit(c, s, i, w, b, o, cmd, now).state)
  {
    TouchBalance(c, s, i, w, o, cmd);
    MoveBalance(c, Touch(c, s, i, w, o, cmd).(hits := s.hits + 1, last := Some(b)), i, w);
  }

  lemma MissBalanced(c: Config, s: State, i: nat, tag: nat, o: nat, cmd: Cmd, now: int)
    requires Shape(c, s) && IsBlock(c, tag, i) && o + cmd.Size() <= c.bsize && Balanced(s)
    ensures Balanced(Miss(c, s, i, tag, o, cmd, now).state)
  {
    var v, s1 := Victim(c, s, i), MissReordered(c, s, i);
    MoveBalance(c, s.(misses := s.misses + 1, last := None), i, v);
    assert BlockBalance(s1) == 1 && DirtyBalance(s1) == 0;
    RefillBalance(c, s1, i, v, tag, now);
    TouchBalance(c, Refill(c, s1, i, v, tag, now).state, i, v, o, cmd);
  }

  lemma AccessBalanced(c: Config, s: State, cmd: Cmd, addr: nat, now: int)
    requires Shape(c, s) && addr < SPACE && Balanced(s) && CacheAccess(c, s, cmd, addr, now).Done?
    ensures Balanced(CacheAccess(c, s, cmd, addr, now).state)
  {
    AddressSplit(c, addr);
    var b, o, tag, i := addr / c.bsize, addr % c.bsize, AddrTag(c, addr), AddrSet(c, addr);
    var w := FindWay(s.sets[i].lines, tag);
    if w < c.assoc {
      HitBalanced(c, s, i, w, b, o, cmd, now);
    } else {
      MissBalanced(c, s, i, tag, o, cmd, now);
    }
  }

  lemma InvalidateBalanced(c: Config, s: State, i: nat, w: nat)
    requires Shape(c, s) && i < c.nsets && w < c.assoc && Balanced(s)
    ensures Balanced(Invalidate(c, s, i, w))
  {
    DropBalance(c, s.(invalidations := s.invalidations + 1), i, w);
  }

  lemma {:induction false} FlushWaysBalanced(c: Config, s: State, i: nat, k: nat)
    requires Shape(c, s) && i < c.nsets && k <= c.assoc && Balanced(s)
    ensures Balanced(FlushWays(c, s, i, k))
  {
    if k > 0 {
      FlushWaysBalanced(c, s, i, k - 1);
      InvalidateBalanced(c, FlushWays(c, s, i, k - 1), i, s.sets[i].order[k - 1]);
    }
  }

  lemma {:induction false} FlushSetsBalanced(c: Config, s: State, i: nat)
    requires Shape(c, s) && i <= c.nsets && Balanced(s)
    ensures Balanced(FlushSets(c, s, i))
  {
    if i > 0 {
      FlushSetsBalanced(c, s, i - 1);
      FlushWaysBalanced(c, FlushSets(c, s, i - 1), i - 1, c.assoc);
    }
  }

  lemma FlushAddrBalanced(c: Config, s: State, addr: nat)
    requires Shape(c, s) && addr < SPACE && Balanced(s)
    ensures Balanced(CacheFlushAddr(c, s, addr).state)
  {
    var i := AddrSet(c, addr);
    var w := FindWay(s.sets[i].lines, AddrTag(c, addr));
    if w < c.assoc {
      InvalidateBalanced(c, s.(last := None), i, w);
      MoveBalance(c, Invalidate(c, s.(last := None), i, w), i, w);
    }
  }

  lemma {:induction false} NoneCounted(p: Line -> nat, sets: seq<WaySet>)
    requires forall i, w :: 0 <= i < |sets| && 0 <= w < |sets[i].lines| ==> p(sets[i].lines[w]) == 0
    ensures Count(p, sets) == 0
  {
    if sets != [] {
      NoLineCounted(p, sets[0].lines);
      NoneCounted(p, sets[1..]);
    }
  }

  lemma {:induction false} NoLineCounted(p: Line -> nat, lines: seq<Line>)
    requires forall w :: 0 <= w < |lines| ==> p(lines[w]) == 0
    ensures CountLines(p, lines) == 0
  {
    if lines != [] {
      NoLineCounted(p, lines[1..]);
    }
  }

  /** Conservation.  In every run of every cache the valid blocks are the misses
      minus replacements and invalidations, and the writebacks and the dirty
      blocks still cached make up all clean-to-dirty transitions. */
  lemma {:induction false} Conservation(c: Config, mem: seq<Byte>, ops: seq<Op>)
    requires ValidConfig(c) && |mem| == SPACE && OpsOk(ops)
    requires Run(c, Initial(c, mem), ops).Ran?
    ensures var s := Run(c, Initial(c, mem), ops).state;
            && Count(IsValid, s.sets) == s.misses - s.replacements - s.invalidations
            && s.writebacks + Count(IsDirty, s.sets) == s.dirtied
  {
    if ops == [] {
      NoneCounted(IsValid, Initial(c, mem).sets);
      NoneCounted(IsDirty, Initial(c, mem).sets);
    } else {
      var n := |ops| - 1;
      Conservation(c, mem, ops[..n]);
      var s := Run(c, Initial(c, mem), ops[..n]).state;
      assert Balanced(s);
      match ops[n]
      case Access(cmd, addr, now) => AccessBalanced(c, s, cmd, addr, now);
      case Flush(_) => FlushSetsBalanced(c, s.(last := None), c.nsets);
      case FlushAddr(addr, _) => FlushAddrBalanced(c, s, addr);
    }
  }

  // ---- the bus ----

  /** A replacement is granted a cycle at or after the request, and the bus is
      then busy up to a later cycle.  The cycle respects the time the bus came
      free exactly when the wait for it was not cut, and it respects the
      victim's outstanding fetch when the wait for that was not cut. */
  lemma GrantTimes(c: Config, s: State, i: nat, w: nat, now: int)
    requires Shape(c, s) && i < c.nsets && w < c.assoc && s.sets[i].lines[w].valid
    ensures var e := Evict(c, s, i, w, now);
            && e.grant.Some?
            && var g := e.grant.value;
               && now <= g.cycle < e.state.busFree && g.busFree == s.busFree < e.state.busFree
               && (g.ready - now <= CAP ==> g.ready <= g.cycle)
               && (g.Uncapped() ==> g.busFree <= g.cycle)
               && (g.ready - now <= CAP && g.busFree <= g.cycle ==> g.Uncapped())
  {
  }

  /** Whatever an operation does, the bus is never freed earlier than before,
      and the grant it reports lies between. */
  ghost predicate BusStep(s: State, r: Outcome) {
    r.Done? ==>
      && s.busFree <= r.state.busFree
      && (r.reply.grant.Some? ==>
            var g := r.reply.grant.value;
            && g.busFree == s.busFree
            && g.cycle < r.state.busFree
            && (g.Uncapped() ==> s.busFree <= g.cycle && g.ready <= g.cycle))
  }

  lemma RefillBus(c: Config, s: State, i: nat, w: nat, tag: nat, now: int)
    requires Shape(c, s) && w < c.assoc && IsBlock(c, tag, i)
    ensures var m := Refill(c, s, i, w, tag, now);
            && s.busFree <= m.state.busFree
            && m.grant == Evict(c, s, i, w, now).grant
            && m.state.busFree == Evict(c, s, i, w, now).state.busFree
            && (s.sets[i].lines[w].valid <==> m.grant.Some?)
  {
  }

  lemma AccessBus(c: Config, s: State, cmd: Cmd, addr: nat, now: int)
    requires Shape(c, s) && addr < SPACE && CacheAccess(c, s, cmd, addr, now).Done?
    ensures BusStep(s, CacheAccess(c, s, cmd, addr, now))
  {
    AddressSplit(c, addr);
    var tag, i := AddrTag(c, addr), AddrSet(c, addr);
    if FindWay(s.sets[i].lines, tag) == c.assoc {
      var s1, v := MissReordered(c, s, i), Victim(c, s, i);
      RefillBus(c, s1, i, v, tag, now);
      if s1.sets[i].lines[v].valid {
        GrantTimes(c, s1, i, v, now);
      }
    }
  }

  lemma {:induction false} FlushWaysBus(c: Config, s: State, i: nat, k: nat)
    requires Shape(c, s) && i < c.nsets && k <= c.assoc
    ensures FlushWays(c, s, i, k).busFree == s.busFree
  {
    if k > 0 {
      FlushWaysBus(c, s, i, k - 1);
    }
  }

  lemma {:induction false} FlushSetsBus(c: Config, s: State, i: nat)
    requires Shape(c, s) && i <= c.nsets
    ensures FlushSets(c, s, i).busFree == s.busFree
  {
    if i > 0 {
      FlushSetsBus(c, s, i - 1);
      FlushWaysBus(c, FlushSets(c, s, i - 1), i - 1, c.assoc);
    }
  }

  ghost predicate Granted(replies: seq<Reply>, k: nat) {
    k < |replies| && replies[k].grant.Some?
  }

  ghost predicate Uncut(replies: seq<Reply>, k: nat) {
    Granted(replies, k) && replies[k].grant.value.Uncapped()
  }

  /** All grants lie before the time the bus comes free, and uncut ones after
      all that precede them. */
  ghost predicate BusOrder(replies: seq<Reply>, busFree: int) {
    && (forall k: nat :: Granted(replies, k) ==> replies[k].grant.value.cycle < busFree)
    && (forall j: nat, k: nat :: j < k && Granted(replies, j) && Uncut(replies, k) ==>
          replies[j].grant.value.cycle < replies[k].grant.value.cycle)
  }

  lemma StepBus(c: Config, s: State, op: Op)
    requires Shape(c, s) && OpOk(op)
    ensures BusStep(s, Step(c, s, op))
  {
    match op
    case Access(cmd, addr, now) =>
      if CacheAccess(c, s, cmd, addr, now).Done? {
        AccessBus(c, s, cmd, addr, now);
      }
    case Flush(_) => FlushSetsBus(c, s.(last := None), c.nsets);
    case FlushAddr(addr, _) =>
  }

  lemma OneMoreReply(prior: seq<Reply>, reply: Reply, free: int, free': int)
    requires BusOrder(prior, free) && free <= free'
    requires reply.grant.Some? ==>
               && reply.grant.value.cycle < free'
               && (reply.grant.value.Uncapped() ==> free <= reply.grant.value.cycle)
    ensures BusOrder(prior + [reply], free')
  {
    var all, n := prior + [reply], |prior|;
    forall k: nat | Granted(all, k)
      ensures all[k].grant.value.cycle < free' && (k < n ==> all[k] == prior[k] && Granted(prior, k))
    {
      assert k < n ==> all[k] == prior[k];
      assert k < n ==> Granted(prior, k);
    }
    forall j: nat, k: nat | j < k && Granted(all, j) && Uncut(all, k)
      ensures all[j].grant.value.cycle < all[k].grant.value.cycle
    {
      if k < n {
        assert Uncut(prior, k);
      }
    }
  }

  lemma {:induction false} BusBound(c: Config, mem: seq<Byte>, ops: seq<Op>)
    requires ValidConfig(c) && |mem| == SPACE && OpsOk(ops)
    requires Run(c, Initial(c, mem), ops).Ran?
    ensures BusOrder(Run(c, Initial(c, mem), ops).replies, Run(c, Initial(c, mem), ops).state.busFree)
  {
    if ops != [] {
      var n := |ops| - 1;
      BusBound(c, mem, ops[..n]);
      var before := Run(c, Initial(c, mem), ops[..n]);
      var r := Step(c, before.state, ops[n]);
      StepBus(c, before.state, ops[n]);
      OneMoreReply(before.replies, r.reply, before.state.busFree, r.state.busFree);
    }
  }

  /** No two replacements of a run share a bus cycle: a grant whose waits were
      not cut comes strictly after every earlier grant, cut or not. */
  lemma {:induction false} BusExclusive(c: Config, mem: seq<Byte>, ops: seq<Op>, j: nat, k: nat)
    requires ValidConfig(c) && |mem| == SPACE && OpsOk(ops) && j < k < |ops|
    requires Run(c, Initial(c, mem), ops).Ran?
    requires Granted(Run(c, Initial(c, mem), ops).replies, j) && Uncut(Run(c, Initial(c, mem), ops).replies, k)
    ensures Run(c, Initial(c, mem), ops).replies[j].grant.value.cycle
          < Run(c, Initial(c, mem), ops).replies[k].grant.value.cycle
  {
    BusBound(c, mem, ops);
  }
}
