/** What the operations of the cache cost, in terms of the calls of the block
    access function they make, the bus cycles they are granted, and the times at
    which blocks arrive. */
module CacheTiming {
  import opened Pow2
  import opened FlatMemory
  import opened Recency
  import opened CacheModel
  import opened Options
  import opened CacheTransparency
  import opened CacheLaws

  function Min(a: int, b: int): int {
    if a < b then a else b
  }

  /** When the block of an address has arrived, or will arrive. */
  function ReadyAt(c: Config, s: State, addr: nat): int
    requires Shape(c, s) && addr < SPACE && Cached(c, s, addr)
  {
    s.sets[AddrSet(c, addr)].lines[FindWay(s.sets[AddrSet(c, addr)].lines, AddrTag(c, addr))].ready
  }

  // ---- the bus ----

  /** A replacement waits for the victim's own fetch and then for the bus, each
      wait cut at CAP cycles, and takes one bus cycle. When no wait is cut, its
      cycle is the earliest that is not before any of the three times. */
  lemma GrantExact(c: Config, s: State, i: nat, w: nat, now: int)
    requires Shape(c, s) && i < c.nsets && w < c.assoc && s.sets[i].lines[w].valid
    ensures var e := Evict(c, s, i, w, now);
            && e.grant.Some? && GrantAt(s, s.sets[i].lines[w].ready, now, e.grant.value, e.state)
            && e.grant.value.addr == MkBaddr(c, s.sets[i].lines[w].tag, i)
  {
  }

  ghost predicate GrantAt(s: State, ready: int, now: int, g: Grant, s': State) {
    var start := Max(now, Min(ready, now + CAP));
    && g.ready == ready && g.now == now && g.busFree == s.busFree
    && g.cycle == Max(start, Min(s.busFree, start + CAP))
    && s'.busFree == Max(s.busFree, g.cycle) + 1
    && (g.Uncapped() ==>
          && now <= g.cycle && ready <= g.cycle && s.busFree <= g.cycle
          && (g.cycle == now || g.cycle == ready || g.cycle == s.busFree)
          && s'.busFree == g.cycle + 1)
  }

  lemma LatencyOne(c: Config, k: nat)
    ensures LatencySum(c, k, k) == 0 && LatencySum(c, k, k + 1) == c.latency(k)
    ensures LatencySum(c, k, k + 2) == c.latency(k) + c.latency(k + 1)
  {
  }

  /** The cost of dealing with the victim. */
  lemma {:induction false} EvictCost(c: Config, s: State, i: nat, w: nat, now: int)
    requires Shape(c, s) && i < c.nsets && w < c.assoc
    ensures var e, l := Evict(c, s, i, w, now), s.sets[i].lines[w];
            && e.state.calls == s.calls + (if l.valid && l.dirty then 1 else 0)
            && e.state.writebacks - s.writebacks == e.state.calls - s.calls
            && (e.grant.Some? <==> l.valid)
            && e.lat == LatencySum(c, s.calls, e.state.calls)
                        + (if e.grant.Some? then e.grant.value.cycle - now else 0)
  {
    LatencyOne(c, s.calls);
  }

  ghost function GrantWait(g: Option<Grant>, now: int): int {
    if g.Some? then g.value.cycle - now else 0
  }

  /** The cost of a miss: all block access calls it made, and the wait for its
      bus cycle if it replaced a block. */
  lemma {:induction false} RefillCost(c: Config, s: State, i: nat, w: nat, tag: nat, now: int)
    requires Shape(c, s) && w < c.assoc && IsBlock(c, tag, i)
    ensures var m := Refill(c, s, i, w, tag, now);
            && m.state.calls == s.calls + 1 + (m.state.writebacks - s.writebacks)
            && s.writebacks <= m.state.writebacks
            && m.lat == LatencySum(c, s.calls, m.state.calls) + GrantWait(m.grant, now)
            && m.state.sets[i].lines[w].ready == now + m.lat
            && (m.grant.Some? <==> s.sets[i].lines[w].valid)
  {
    EvictCost(c, s, i, w, now);
    LatencyOne(c, s.calls);
  }

  lemma {:induction false} OneMatch(lines: seq<Line>, lines': seq<Line>, tag: nat, w: nat)
    requires |lines| == |lines'| && w < |lines| && lines' == lines[w := lines'[w]]
    requires FindWay(lines, tag) == |lines| && Matches(lines'[w], tag)
    ensures FindWay(lines', tag) == w
  {
    FindOnly(lines', tag, w);
  }

  lemma MissLine(c: Config, s: State, i: nat, tag: nat, o: nat, cmd: Cmd, now: int)
    requires Shape(c, s) && IsBlock(c, tag, i) && o + cmd.Size() <= c.bsize
    ensures var r, w := Miss(c, s, i, tag, o, cmd, now), Victim(c, s, i);
            var m := Refill(c, MissReordered(c, s, i), i, w, tag, now);
            && r.reply.latency == m.lat && r.reply.grant == m.grant
            && r.state.calls == m.state.calls && r.state.writebacks == m.state.writebacks
            && r.state.busFree == m.state.busFree
            && r.state.sets[i].lines == s.sets[i].lines[w := r.state.sets[i].lines[w]]
            && Matches(r.state.sets[i].lines[w], tag)
            && r.state.sets[i].lines[w].ready == m.state.sets[i].lines[w].ready
  {
  }

  lemma {:induction false} MissCost(c: Config, s: State, i: nat, tag: nat, o: nat, cmd: Cmd, now: int)
    requires Shape(c, s) && IsBlock(c, tag, i) && o + cmd.Size() <= c.bsize
    requires FindWay(s.sets[i].lines, tag) == c.assoc
    ensures var r := Miss(c, s, i, tag, o, cmd, now);
            && s.writebacks <= r.state.writebacks
            && r.state.calls == s.calls + 1 + (r.state.writebacks - s.writebacks)
            && r.reply.latency == LatencySum(c, s.calls, r.state.calls) + GrantWait(r.reply.grant, now)
            && FindWay(r.state.sets[i].lines, tag) < c.assoc
            && r.state.sets[i].lines[FindWay(r.state.sets[i].lines, tag)].ready == now + r.reply.latency
  {
    var r, w := Miss(c, s, i, tag, o, cmd, now), Victim(c, s, i);
    MissLine(c, s, i, tag, o, cmd, now);
    RefillCost(c, MissReordered(c, s, i), i, w, tag, now);
    OneMatch(s.sets[i].lines, r.state.sets[i].lines, tag, w);
  }

  /** What an access costs. A hit waits for its block to arrive and costs no less
      than the hit latency. A miss pays for every block access call it makes, one
      for the fetch and one for a dirty victim, and for the wait until the bus
      cycle it is granted; the block then arrives when that has passed. */
  lemma {:induction false} AccessCost(c: Config, s: State, cmd: Cmd, addr: nat, now: int)
    requires Shape(c, s) && addr < SPACE && CacheAccess(c, s, cmd, addr, now).Done?
    ensures var r := CacheAccess(c, s, cmd, addr, now);
            if Cached(c, s, addr) then
              && r.state.calls == s.calls && r.reply.grant.None?
              && r.reply.latency == Max(c.hitLatency, ReadyAt(c, s, addr) - now)
            else
              && s.writebacks <= r.state.writebacks
              && r.state.calls == s.calls + 1 + (r.state.writebacks - s.writebacks)
              && r.reply.latency == LatencySum(c, s.calls, r.state.calls) + GrantWait(r.reply.grant, now)
              && Cached(c, r.state, addr) && ReadyAt(c, r.state, addr) == now + r.reply.latency
  {
    AddressSplit(c, addr);
    if !Cached(c, s, addr) {
      MissCost(c, s, AddrSet(c, addr), AddrTag(c, addr), addr % c.bsize, cmd, now);
    }
  }

  /** The bus cycle of an access: none for a hit, or when the line it replaces is
      invalid; else the exact one, for the block that was replaced. */
  lemma AccessGrant(c: Config, s: State, cmd: Cmd, addr: nat, now: int)
    requires Shape(c, s) && addr < SPACE && CacheAccess(c, s, cmd, addr, now).Done?
    ensures var r := CacheAccess(c, s, cmd, addr, now);
            var l := s.sets[AddrSet(c, addr)].lines[Victim(c, s, AddrSet(c, addr))];
            if !Cached(c, s, addr) && l.valid then
              && r.reply.grant.Some? && GrantAt(s, l.ready, now, r.reply.grant.value, r.state)
              && r.reply.grant.value.addr == MkBaddr(c, l.tag, AddrSet(c, addr))
            else r.reply.grant.None? && r.state.busFree == s.busFree
  {
    AddressSplit(c, addr);
    if !Cached(c, s, addr) {
      var i, tag := AddrSet(c, addr), AddrTag(c, addr);
      var w, s1 := Victim(c, s, i), MissReordered(c, s, i);
      MissLine(c, s, i, tag, addr % c.bsize, cmd, now);
      RefillGrant(c, s1, i, w, tag, now);
      if s.sets[i].lines[w].valid {
        GrantExact(c, s1, i, w, now);
      }
    }
  }

  lemma RefillGrant(c: Config, s: State, i: nat, w: nat, tag: nat, now: int)
    requires Shape(c, s) && w < c.assoc && IsBlock(c, tag, i)
    ensures var m, e := Refill(c, s, i, w, tag, now), Evict(c, s, i, w, now);
            && m.grant == e.grant && m.state.busFree == e.state.busFree
            && (m.grant.None? ==> m.state.busFree == s.busFree && !s.sets[i].lines[w].valid)
  {
  }

  // ---- flushes ----

  /** Every call of a flush writes a block back. */
  lemma {:induction false} FlushWaysCalls(c: Config, s: State, i: nat, k: nat)
    requires Shape(c, s) && i < c.nsets && k <= c.assoc
    ensures s.calls <= FlushWays(c, s, i, k).calls
    ensures FlushWays(c, s, i, k).calls - s.calls == FlushWays(c, s, i, k).writebacks - s.writebacks
  {
    if k > 0 {
      FlushWaysCalls(c, s, i, k - 1);
    }
  }

  lemma {:induction false} FlushSetsCalls(c: Config, s: State, i: nat)
    requires Shape(c, s) && i <= c.nsets
    ensures s.calls <= FlushSets(c, s, i).calls
    ensures FlushSets(c, s, i).calls - s.calls == FlushSets(c, s, i).writebacks - s.writebacks
  {
    if i > 0 {
      FlushSetsCalls(c, s, i - 1);
      FlushWaysCalls(c, FlushSets(c, s, i - 1), i - 1, c.assoc);
    }
  }

  /** A flush, of everything or of one block, costs the hit latency and the
      latencies of the calls it makes, one for each block it writes back. */
  lemma {:induction false} FlushCost(c: Config, s: State, op: Op)
    requires Shape(c, s) && OpOk(op) && !op.Access?
    ensures var r := Step(c, s, op);
            && s.calls <= r.state.calls && r.state.calls - s.calls == r.state.writebacks - s.writebacks
            && r.reply.latency == c.hitLatency + LatencySum(c, s.calls, r.state.calls)
            && r.reply.grant.None? && r.state.busFree == s.busFree
  {
    match op
    case Flush(_) =>
      FlushSetsCalls(c, s.(last := None), c.nsets);
      FlushSetsBus(c, s.(last := None), c.nsets);
    case FlushAddr(addr, _) => FlushAddrCost(c, s, addr);
  }

  lemma {:induction false} FlushAddrCost(c: Config, s: State, addr: nat)
    requires Shape(c, s) && addr < SPACE
    ensures var r := CacheFlushAddr(c, s, addr);
            && s.calls <= r.state.calls && r.state.calls - s.calls == r.state.writebacks - s.writebacks
            && r.reply.latency == c.hitLatency + LatencySum(c, s.calls, r.state.calls)
            && r.reply.grant.None? && r.state.busFree == s.busFree
  {
    LatencyOne(c, s.calls);
  }

  // ---- the time at which a block arrives, over a run ----

  /** Addresses of one block are looked for alike. */
  lemma SameBlockAddr(c: Config, a: nat, b: nat)
    requires ValidConfig(c) && a / c.bsize == b / c.bsize
    ensures AddrSet(c, a) == AddrSet(c, b) && AddrTag(c, a) == AddrTag(c, b)
  {
    TagIsDivided(a, c.bsize, c.nsets);
    TagIsDivided(b, c.bsize, c.nsets);
  }

  /** A line that is found before and after some other line of its set changed. */
  lemma {:induction false} FoundAgain(lines: seq<Line>, lines': seq<Line>, w: nat, tag: nat)
    requires UniqueTags(lines) && |lines'| == |lines| && w < |lines| && lines' == lines[w := lines'[w]]
    requires FindWay(lines, tag) < |lines| && FindWay(lines', tag) < |lines|
    requires Matches(lines[w], tag) || !Matches(lines'[w], tag)
    ensures FindWay(lines', tag) == FindWay(lines, tag)
  {
    FindUnique(lines, FindWay(lines, tag));
    FindUnique(lines, if Matches(lines[w], tag) then w else FindWay(lines, tag));
    assert forall v :: 0 <= v < |lines| && v != FindWay(lines, tag) ==> !Matches(lines'[v], tag);
    FindOnly(lines', tag, FindWay(lines', tag));
  }

  lemma HitReady(c: Config, s: State, i: nat, w: nat, b: nat, o: nat, cmd: Cmd, now: int)
    requires Shape(c, s) && i < c.nsets && w < c.assoc && o + cmd.Size() <= c.bsize
    ensures var s' := Hit(c, s, i, w, b, o, cmd, now).state;
            && OnlyLine(c, s, s', i, w)
            && s'.sets[i].lines[w].ready == s.sets[i].lines[w].ready
            && s'.sets[i].lines[w].tag == s.sets[i].lines[w].tag
            && s'.sets[i].lines[w].valid == s.sets[i].lines[w].valid
  {
  }

  /** At most line w of set i changed. */
  ghost predicate OnlyLine(c: Config, s: State, s': State, i: nat, w: nat)
    requires Shape(c, s) && Shape(c, s') && i < c.nsets && w < c.assoc
  {
    && s'.sets[i].lines == s.sets[i].lines[w := s'.sets[i].lines[w]]
    && forall j :: 0 <= j < c.nsets && j != i ==> s'.sets[j].lines == s.sets[j].lines
  }

  lemma MissReady(c: Config, s: State, i: nat, tag: nat, o: nat, cmd: Cmd, now: int)
    requires Shape(c, s) && IsBlock(c, tag, i) && o + cmd.Size() <= c.bsize
    ensures OnlyLine(c, s, Miss(c, s, i, tag, o, cmd, now).state, i, Victim(c, s, i))
    ensures Matches(Miss(c, s, i, tag, o, cmd, now).state.sets[i].lines[Victim(c, s, i)], tag)
  {
    MissLine(c, s, i, tag, o, cmd, now);
  }

  /** A line of the cache that is found before and after a change of one line that
      did not bring its block in keeps its time. */
  lemma LineReady(c: Config, s: State, s': State, i: nat, w: nat, a: nat)
    requires Inv(c, s) && Shape(c, s') && i < c.nsets && w < c.assoc && a < SPACE
    requires OnlyLine(c, s, s', i, w) && Cached(c, s, a) && Cached(c, s', a)
    requires AddrSet(c, a) == i ==>
               var l, l' := s.sets[i].lines[w], s'.sets[i].lines[w];
               if Matches(l, AddrTag(c, a)) then Matches(l', AddrTag(c, a)) ==> l'.ready == l.ready
               else !Matches(l', AddrTag(c, a))
    ensures ReadyAt(c, s', a) == ReadyAt(c, s, a)
  {
    if AddrSet(c, a) == i {
      FoundAgain(s.sets[i].lines, s'.sets[i].lines, w, AddrTag(c, a));
    }
  }

  lemma FlushEmpties(c: Config, s: State, op: Op, a: nat)
    requires Inv(c, s) && op.Flush? && a < SPACE
    ensures Step(c, s, op).Done? && !Cached(c, Step(c, s, op).state, a)
  {
    FlushSetsEffect(c, s.(last := None), c.nsets);
    assert AllInvalid(Step(c, s, op).state.sets[AddrSet(c, a)].lines);
  }

  /** Whatever an operation does, a block that stays in the cache arrives when it
      was to arrive before. */
  lemma ReadyKept(c: Config, s: State, op: Op, a: nat)
    requires Inv(c, s) && OpOk(op) && a < SPACE && Step(c, s, op).Done?
    requires Cached(c, s, a) && Cached(c, Step(c, s, op).state, a)
    ensures ReadyAt(c, Step(c, s, op).state, a) == ReadyAt(c, s, a)
  {
    var s' := Step(c, s, op).state;
    match op
    case Access(cmd, addr, now) =>
      AddressSplit(c, addr);
      var i, tag, o := AddrSet(c, addr), AddrTag(c, addr), addr % c.bsize;
      var w := FindWay(s.sets[i].lines, tag);
      if w < c.assoc {
        HitReady(c, s, i, w, addr / c.bsize, o, cmd, now);
        LineReady(c, s, s', i, w, a);
      } else {
        MissReady(c, s, i, tag, o, cmd, now);
        LineReady(c, s, s', i, Victim(c, s, i), a);
      }
    case Flush(_) =>
      FlushEmpties(c, s, op, a);
    case FlushAddr(addr, _) =>
      var i := AddrSet(c, addr);
      var w := FindWay(s.sets[i].lines, AddrTag(c, addr));
      if w < c.assoc {
        FlushAddrLine(c, s, addr);
        LineReady(c, s, s', i, w, a);
      }
  }

  lemma FlushAddrLine(c: Config, s: State, addr: nat)
    requires Shape(c, s) && addr < SPACE && Cached(c, s, addr)
    ensures var i := AddrSet(c, addr);
            var w, s' := FindWay(s.sets[i].lines, AddrTag(c, addr)), CacheFlushAddr(c, s, addr).state;
            OnlyLine(c, s, s', i, w) && !s'.sets[i].lines[w].valid
  {
  }

  /** The block of `a` is in the cache after every operation from k on. */
  ghost predicate StaysCached(c: Config, s0: State, ops: seq<Op>, a: nat, k: nat)
    requires Shape(c, s0) && OpsOk(ops) && a < SPACE
  {
    forall j: nat :: k < j <= |ops| ==> CachedAfter(c, s0, ops[..j], a)
  }

  ghost predicate CachedAfter(c: Config, s0: State, ops: seq<Op>, a: nat)
    requires Shape(c, s0) && OpsOk(ops) && a < SPACE
  {
    Run(c, s0, ops).Ran? && Cached(c, Run(c, s0, ops).state, a)
  }

  lemma {:induction false} RunSnoc(c: Config, s0: State, ops: seq<Op>)
    requires Shape(c, s0) && OpsOk(ops) && ops != [] && Run(c, s0, ops).Ran?
    ensures var before := Run(c, s0, ops[..|ops| - 1]);
            && before.Ran? && Step(c, before.state, ops[|ops| - 1]).Done?
            && Run(c, s0, ops).state == Step(c, before.state, ops[|ops| - 1]).state
            && Run(c, s0, ops).replies == before.replies + [Step(c, before.state, ops[|ops| - 1]).reply]
  {
  }

  lemma StaysPrefix(c: Config, s0: State, ops: seq<Op>, a: nat, k: nat)
    requires Shape(c, s0) && OpsOk(ops) && a < SPACE && k + 1 < |ops| && StaysCached(c, s0, ops, a, k)
    ensures StaysCached(c, s0, ops[..|ops| - 1], a, k)
    ensures CachedAfter(c, s0, ops[..|ops| - 1], a) && CachedAfter(c, s0, ops, a)
  {
    var front := ops[..|ops| - 1];
    assert ops[..|ops|] == ops;
    forall j: nat | k < j <= |front|
      ensures CachedAfter(c, s0, front[..j], a)
    {
      assert front[..j] == ops[..j];
    }
    assert ops[..|ops| - 1] == front && CachedAfter(c, s0, ops[..|ops| - 1], a);
  }

  /** Operation k of a run misses on the block of `a`. */
  ghost predicate MissesAt(c: Config, s0: State, ops: seq<Op>, a: nat, k: nat)
    requires Shape(c, s0) && OpsOk(ops) && a < SPACE && k < |ops|
  {
    && ops[k].Access? && ops[k].addr / c.bsize == a / c.bsize
    && Run(c, s0, ops[..k]).Ran? && !Cached(c, Run(c, s0, ops[..k]).state, ops[k].addr)
  }

  ghost predicate Arrives(c: Config, s: State, a: nat, due: int)
    requires Shape(c, s) && a < SPACE
  {
    Cached(c, s, a) && ReadyAt(c, s, a) == due
  }

  lemma ArrivesFirst(c: Config, s: State, op: Op, a: nat)
    requires Shape(c, s) && OpOk(op) && a < SPACE && Step(c, s, op).Done?
    requires op.Access? && op.addr / c.bsize == a / c.bsize && !Cached(c, s, op.addr)
    ensures Arrives(c, Step(c, s, op).state, a, op.now + Step(c, s, op).reply.latency)
  {
    SameBlockAddr(c, op.addr, a);
    AccessCost(c, s, op.cmd, op.addr, op.now);
  }

  lemma ArrivesKept(c: Config, s: State, op: Op, a: nat, due: int)
    requires Inv(c, s) && OpOk(op) && a < SPACE && Step(c, s, op).Done?
    requires Arrives(c, s, a, due) && Cached(c, Step(c, s, op).state, a)
    ensures Arrives(c, Step(c, s, op).state, a, due)
  {
    ReadyKept(c, s, op, a);
  }

  /** The latency of an access, if it is served. */
  ghost predicate Costs(c: Config, s: State, cmd: Cmd, a: nat, t: int, lat: int)
    requires Shape(c, s) && a < SPACE
  {
    var r := CacheAccess(c, s, cmd, a, t);
    r.Done? ==> r.reply.latency == lat
  }

  lemma ArrivesCost(c: Config, s: State, cmd: Cmd, a: nat, t: int, due: int)
    requires Shape(c, s) && a < SPACE && Arrives(c, s, a, due)
    ensures Costs(c, s, cmd, a, t, Max(c.hitLatency, due - t))
  {
    if CacheAccess(c, s, cmd, a, t).Done? {
      AccessCost(c, s, cmd, a, t);
    }
  }

  /** In any run, a block that was fetched by operation k and has stayed in the
      cache arrives when the latency reported for that operation has passed. */
  lemma {:induction false} ArrivesAt(c: Config, mem: seq<Byte>, ops: seq<Op>, a: nat, k: nat)
    requires ValidConfig(c) && |mem| == SPACE && OpsOk(ops) && a < SPACE && k < |ops|
    requires Run(c, Initial(c, mem), ops).Ran? && MissesAt(c, Initial(c, mem), ops, a, k)
    requires StaysCached(c, Initial(c, mem), ops, a, k)
    ensures var r := Run(c, Initial(c, mem), ops); Arrives(c, r.state, a, ops[k].now + r.replies[k].latency)
  {
    var s0, n := Initial(c, mem), |ops| - 1;
    var front := ops[..n];
    RunSnoc(c, s0, ops);
    var before := Run(c, s0, front);
    if k == n {
      ArrivesFirst(c, before.state, ops[n], a);
    } else {
      StaysPrefix(c, s0, ops, a, k);
      assert front[..k] == ops[..k] && front[k] == ops[k];
      ArrivesAt(c, mem, front, a, k);
      RunCoherent(c, mem, front);
      ArrivesKept(c, before.state, ops[n], a, ops[k].now + before.replies[k].latency);
    }
  }

  /** So the next access to it costs what is left of that time, and no less than
      the hit latency. */
  lemma {:induction false} HitPays(c: Config, mem: seq<Byte>, ops: seq<Op>, k: nat, cmd: Cmd, a: nat, t: int, due: int)
    requires ValidConfig(c) && |mem| == SPACE && OpsOk(ops) && a < SPACE && k < |ops|
    requires Run(c, Initial(c, mem), ops).Ran? && due == ops[k].now + Run(c, Initial(c, mem), ops).replies[k].latency
    requires MissesAt(c, Initial(c, mem), ops, a, k) && StaysCached(c, Initial(c, mem), ops, a, k)
    ensures Costs(c, Run(c, Initial(c, mem), ops).state, cmd, a, t, Max(c.hitLatency, due - t))
  {
    ArrivesAt(c, mem, ops, a, k);
    ArrivesCost(c, Run(c, Initial(c, mem), ops).state, cmd, a, t, due);
  }
}
