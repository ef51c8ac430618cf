/** Which blocks are in the cache, and which one is replaced: over every run, LRU
    replaces the block of the set that was used longest ago and FIFO the one that
    was fetched longest ago. */
module CacheAges {
  import opened Pow2
  import opened FlatMemory
  import opened Recency
  import opened CacheModel
  import opened Options
  import opened CacheTransparency
  import opened CacheInclusion
  import opened CacheTiming

  // ---- what is in the cache ----

  lemma {:induction false} IsFound(lines: seq<Line>, u: nat)
    ensures FindWay(lines, u) < |lines| <==> exists w :: 0 <= w < |lines| && Matches(lines[w], u)
  {
  }

  /** Line w now holds `tag`: that is found, and what it held before is not. */
  lemma {:induction false} FoundAfter(lines: seq<Line>, lines': seq<Line>, w: nat, tag: nat, u: nat)
    requires UniqueTags(lines) && |lines'| == |lines| && w < |lines| && lines' == lines[w := lines'[w]]
    requires Matches(lines'[w], tag)
    ensures FindWay(lines', u) < |lines| <==>
              u == tag || (FindWay(lines, u) < |lines| && !Matches(lines[w], u))
  {
    IsFound(lines, u);
    IsFound(lines', u);
    if FindWay(lines, u) < |lines| {
      assert Matches(lines'[FindWay(lines, u)], u) || FindWay(lines, u) == w;
    }
    if FindWay(lines', u) < |lines| {
      assert Matches(lines[FindWay(lines', u)], u) || FindWay(lines', u) == w;
    }
  }

  /** Line w is now invalid: what it held is not found any more. */
  lemma {:induction false} FoundWithout(lines: seq<Line>, lines': seq<Line>, w: nat, u: nat)
    requires UniqueTags(lines) && |lines'| == |lines| && w < |lines| && lines' == lines[w := lines'[w]]
    requires !lines'[w].valid
    ensures FindWay(lines', u) < |lines| <==> FindWay(lines, u) < |lines| && !Matches(lines[w], u)
  {
    IsFound(lines, u);
    IsFound(lines', u);
    if FindWay(lines, u) < |lines| {
      assert Matches(lines'[FindWay(lines, u)], u) || FindWay(lines, u) == w;
    }
    if FindWay(lines', u) < |lines| {
      assert Matches(lines[FindWay(lines', u)], u);
    }
  }

  predicate SameBlock(c: Config, a: nat, b: nat)
    requires ValidConfig(c)
  {
    a / c.bsize == b / c.bsize
  }

  /** Two addresses are in one block exactly when set and tag are the same. */
  lemma SameBlockExact(c: Config, a: nat, b: nat)
    requires ValidConfig(c) && a < SPACE && b < SPACE
    ensures SameBlock(c, a, b) <==> AddrSet(c, a) == AddrSet(c, b) && AddrTag(c, a) == AddrTag(c, b)
  {
    AddressSplit(c, a);
    AddressSplit(c, b);
    BlockParts(c, AddrTag(c, a), AddrSet(c, a), AddrTag(c, b), AddrSet(c, b));
  }

  lemma BaddrParts(c: Config, tag: nat, i: nat)
    requires ValidConfig(c) && IsBlock(c, tag, i)
    ensures var a := MkBaddr(c, tag, i);
            a < SPACE && a % c.bsize == 0 && AddrSet(c, a) == i && AddrTag(c, a) == tag
  {
    var b := MkBlock(c, tag, i);
    Assoc(tag, c.nsets, c.bsize);
    Distribute(tag * c.nsets, i, c.bsize);
    InRange(c, b);
    MultipleMod(b, c.bsize);
    DivModUnique(b, c.nsets, tag, i);
    TagIsDivided(b * c.bsize, c.bsize, c.nsets);
  }

  /** What an access leaves in the cache: its own block and all that were there but
      the one whose address it reports as replaced. */
  ghost predicate ContentsAfter(c: Config, s: State, s': State, addr: nat, g: Option<Grant>)
    requires Shape(c, s) && Shape(c, s') && addr < SPACE
  {
    forall a: nat :: a < SPACE ==>
      (Cached(c, s', a) <==> SameBlock(c, a, addr) || (Cached(c, s, a) && !(g.Some? && SameBlock(c, a, g.value.addr))))
  }

  lemma HitContents(c: Config, s: State, cmd: Cmd, addr: nat, now: int, a: nat)
    requires Inv(c, s) && addr < SPACE && a < SPACE && CacheAccess(c, s, cmd, addr, now).Done? && Cached(c, s, addr)
    ensures Cached(c, CacheAccess(c, s, cmd, addr, now).state, a) <==> Cached(c, s, a)
  {
    AddressSplit(c, addr);
    var i, tag, o := AddrSet(c, addr), AddrTag(c, addr), addr % c.bsize;
    var w := FindWay(s.sets[i].lines, tag);
    HitReady(c, s, i, w, addr / c.bsize, o, cmd, now);
    if AddrSet(c, a) == i {
      var lines' := Hit(c, s, i, w, addr / c.bsize, o, cmd, now).state.sets[i].lines;
      FoundAfter(s.sets[i].lines, lines', w, tag, AddrTag(c, a));
    }
  }

  lemma MissContents(c: Config, s: State, cmd: Cmd, addr: nat, now: int, a: nat)
    requires Inv(c, s) && addr < SPACE && a < SPACE && CacheAccess(c, s, cmd, addr, now).Done? && !Cached(c, s, addr)
    ensures var r, i := CacheAccess(c, s, cmd, addr, now), AddrSet(c, addr);
            Cached(c, r.state, a) <==>
              SameBlock(c, a, addr)
              || (Cached(c, s, a) && !(AddrSet(c, a) == i && Matches(s.sets[i].lines[Victim(c, s, i)], AddrTag(c, a))))
  {
    AddressSplit(c, addr);
    SameBlockExact(c, a, addr);
    var i, tag, o := AddrSet(c, addr), AddrTag(c, addr), addr % c.bsize;
    MissReady(c, s, i, tag, o, cmd, now);
    if AddrSet(c, a) == i {
      var lines' := Miss(c, s, i, tag, o, cmd, now).state.sets[i].lines;
      FoundAfter(s.sets[i].lines, lines', Victim(c, s, i), tag, AddrTag(c, a));
    }
  }

  /** The contents of the cache follow from the replies. The block reported as
      replaced was in the cache, in the set of the address that missed. */
  lemma AccessContents(c: Config, s: State, cmd: Cmd, addr: nat, now: int)
    requires Inv(c, s) && addr < SPACE && CacheAccess(c, s, cmd, addr, now).Done?
    ensures var r := CacheAccess(c, s, cmd, addr, now);
            && (r.reply.grant.Some? ==>
                  var g := r.reply.grant.value.addr;
                  && g < SPACE && g % c.bsize == 0 && AddrSet(c, g) == AddrSet(c, addr)
                  && Cached(c, s, g) && !Cached(c, s, addr))
            && ContentsAfter(c, s, r.state, addr, r.reply.grant)
  {
    var r, i := CacheAccess(c, s, cmd, addr, now), AddrSet(c, addr);
    var l := s.sets[i].lines[Victim(c, s, i)];
    AccessGrant(c, s, cmd, addr, now);
    if r.reply.grant.Some? {
      BaddrParts(c, l.tag, i);
      FindUnique(s.sets[i].lines, Victim(c, s, i));
    }
    forall a: nat | a < SPACE
      ensures Cached(c, r.state, a) <==>
                SameBlock(c, a, addr)
                || (Cached(c, s, a) && !(r.reply.grant.Some? && SameBlock(c, a, r.reply.grant.value.addr)))
    {
      SameBlockExact(c, a, addr);
      if Cached(c, s, addr) {
        HitContents(c, s, cmd, addr, now, a);
      } else {
        MissContents(c, s, cmd, addr, now, a);
        if r.reply.grant.Some? {
          SameBlockExact(c, a, r.reply.grant.value.addr);
        }
      }
    }
  }

  /** A flush leaves nothing, an address flush all but its block. */
  lemma FlushContents(c: Config, s: State, op: Op, a: nat)
    requires Inv(c, s) && OpOk(op) && !op.Access? && a < SPACE
    ensures Cached(c, Step(c, s, op).state, a) <==> op.FlushAddr? && Cached(c, s, a) && !SameBlock(c, a, op.addr)
  {
    match op
    case Flush(_) =>
      FlushSetsEffect(c, s.(last := None), c.nsets);
      assert AllInvalid(CacheFlush(c, s).state.sets[AddrSet(c, a)].lines);
    case FlushAddr(addr, _) =>
      SameBlockExact(c, a, addr);
      if Cached(c, s, addr) {
        FlushAddrLine(c, s, addr);
        var i := AddrSet(c, addr);
        var lines := s.sets[i].lines;
        if AddrSet(c, a) == i {
          var lines' := CacheFlushAddr(c, s, addr).state.sets[i].lines;
          FoundWithout(lines, lines', FindWay(lines, AddrTag(c, addr)), AddrTag(c, a));
        }
      }
  }

  // ---- the counters ----

  /** What an operation finds. */
  datatype Result = Found | NotFound | Flushed

  function ResultOf(c: Config, s: State, op: Op): Result
    requires Shape(c, s) && OpOk(op)
  {
    if !op.Access? then Flushed else if Cached(c, s, op.addr) then Found else NotFound
  }

  function Results(c: Config, s0: State, ops: seq<Op>): (rs: seq<Result>)
    requires Shape(c, s0) && OpsOk(ops) && Run(c, s0, ops).Ran?
    ensures |rs| == |ops|
  {
    if ops == [] then []
    else
      var n := |ops| - 1;
      Results(c, s0, ops[..n]) + [ResultOf(c, Run(c, s0, ops[..n]).state, ops[n])]
  }

  ghost function Grants(replies: seq<Reply>): nat {
    if replies == [] then 0
    else Grants(replies[..|replies| - 1]) + if replies[|replies| - 1].grant.Some? then 1 else 0
  }

  lemma {:induction false} GrantsSnoc(replies: seq<Reply>, r: Reply)
    ensures Grants(replies + [r]) == Grants(replies) + if r.grant.Some? then 1 else 0
  {
    assert (replies + [r])[..|replies|] == replies;
  }

  lemma CountSnoc(rs: seq<Result>, r: Result, x: Result)
    ensures multiset(rs + [r])[x] == multiset(rs)[x] + if r == x then 1 else 0
  {
  }

  /** Which counter an operation moves. */
  lemma StepCounters(c: Config, s: State, op: Op)
    requires Shape(c, s) && OpOk(op) && Step(c, s, op).Done?
    ensures var r := Step(c, s, op);
            && r.state.hits == s.hits + (if op.Access? && Cached(c, s, op.addr) then 1 else 0)
            && r.state.misses == s.misses + (if op.Access? && !Cached(c, s, op.addr) then 1 else 0)
            && r.state.replacements == s.replacements + (if r.reply.grant.Some? then 1 else 0)
  {
    match op
    case Access(cmd, addr, now) =>
      AddressSplit(c, addr);
      if !Cached(c, s, addr) {
        MissCounters(c, s, AddrSet(c, addr), AddrTag(c, addr), addr % c.bsize, cmd, now);
      }
    case Flush(_) => FlushSetsCounters(c, s.(last := None), c.nsets);
    case FlushAddr(_, _) =>
  }

  lemma MissCounters(c: Config, s: State, i: nat, tag: nat, o: nat, cmd: Cmd, now: int)
    requires Shape(c, s) && IsBlock(c, tag, i) && o + cmd.Size() <= c.bsize
    ensures var r := Miss(c, s, i, tag, o, cmd, now);
            && r.state.hits == s.hits && r.state.misses == s.misses + 1
            && r.state.replacements == s.replacements + (if r.reply.grant.Some? then 1 else 0)
  {
    RefillCounters(c, MissReordered(c, s, i), i, Victim(c, s, i), tag, now);
  }

  lemma RefillCounters(c: Config, s: State, i: nat, w: nat, tag: nat, now: int)
    requires Shape(c, s) && w < c.assoc && IsBlock(c, tag, i)
    ensures var m := Refill(c, s, i, w, tag, now);
            && m.state.hits == s.hits && m.state.misses == s.misses
            && m.state.replacements == s.replacements + (if m.grant.Some? then 1 else 0)
  {
  }

  lemma {:induction false} FlushWaysCounters(c: Config, s: State, i: nat, k: nat)
    requires Shape(c, s) && i < c.nsets && k <= c.assoc
    ensures var t := FlushWays(c, s, i, k);
            t.hits == s.hits && t.misses == s.misses && t.replacements == s.replacements
  {
    if k > 0 {
      FlushWaysCounters(c, s, i, k - 1);
    }
  }

  lemma {:induction false} FlushSetsCounters(c: Config, s: State, i: nat)
    requires Shape(c, s) && i <= c.nsets
    ensures var t := FlushSets(c, s, i);
            t.hits == s.hits && t.misses == s.misses && t.replacements == s.replacements
  {
    if i > 0 {
      FlushSetsCounters(c, s, i - 1);
      FlushWaysCounters(c, FlushSets(c, s, i - 1), i - 1, c.assoc);
    }
  }

  ghost predicate Counted(s: State, rs: seq<Result>, replies: seq<Reply>) {
    && s.hits == multiset(rs)[Found] && s.misses == multiset(rs)[NotFound]
    && s.replacements == Grants(replies)
  }

  lemma CountedSnoc(s: State, s': State, rs: seq<Result>, x: Result, replies: seq<Reply>, reply: Reply)
    requires Counted(s, rs, replies)
    requires s'.hits == s.hits + (if x == Found then 1 else 0)
    requires s'.misses == s.misses + (if x == NotFound then 1 else 0)
    requires s'.replacements == s.replacements + (if reply.grant.Some? then 1 else 0)
    ensures Counted(s', rs + [x], replies + [reply])
  {
    CountSnoc(rs, x, Found);
    CountSnoc(rs, x, NotFound);
    GrantsSnoc(replies, reply);
  }

  /** In every run hits and misses are the accesses that found their block and that
      did not, and replacements are the bus cycles granted. */
  lemma {:induction false} CountersExact(c: Config, mem: seq<Byte>, ops: seq<Op>)
    requires ValidConfig(c) && |mem| == SPACE && OpsOk(ops) && Run(c, Initial(c, mem), ops).Ran?
    ensures var r := Run(c, Initial(c, mem), ops); Counted(r.state, Results(c, Initial(c, mem), ops), r.replies)
  {
    if ops != [] {
      var s0, n := Initial(c, mem), |ops| - 1;
      var before := Run(c, s0, ops[..n]);
      var r := Step(c, before.state, ops[n]);
      RunSnoc(c, s0, ops);
      CountersExact(c, mem, ops[..n]);
      StepCounters(c, before.state, ops[n]);
      CountedSnoc(before.state, r.state, Results(c, s0, ops[..n]), ResultOf(c, before.state, ops[n]),
                  before.replies, r.reply);
    }
  }

  // ---- ages ----

  /** When block b was last accessed, or fetched under FIFO, counted from 1. */
  ghost function Age(c: Config, s0: State, ops: seq<Op>, b: nat): (t: nat)
    requires Shape(c, s0) && OpsOk(ops)
    ensures t <= |ops|
  {
    if ops == [] then 0
    else if Renews(c, s0, ops, |ops| - 1, b) then |ops|
    else Age(c, s0, ops[..|ops| - 1], b)
  }

  /** Operation k accesses block b; under FIFO it also has to miss. */
  ghost predicate Renews(c: Config, s0: State, ops: seq<Op>, k: nat, b: nat)
    requires Shape(c, s0) && OpsOk(ops) && k < |ops|
  {
    && ops[k].Access? && BlockNumber(ops[k].addr, c.bsize) == b
    && (c.policy.FIFO? ==> !CachedAfter(c, s0, ops[..k], ops[k].addr))
  }

  /** The tags of set i, youngest block first. */
  ghost predicate ByAge(c: Config, s0: State, ops: seq<Op>, i: nat, tags: seq<nat>)
    requires Shape(c, s0) && OpsOk(ops)
  {
    forall j, k :: 0 <= j < k < |tags| ==> OlderThan(c, s0, ops, MkBlock(c, tags[k], i), MkBlock(c, tags[j], i))
  }

  ghost predicate OlderThan(c: Config, s0: State, ops: seq<Op>, b: nat, b': nat)
    requires Shape(c, s0) && OpsOk(ops)
  {
    Age(c, s0, ops, b) < Age(c, s0, ops, b')
  }

  lemma {:induction false} RemoveByAge(c: Config, s0: State, ops: seq<Op>, i: nat, tags: seq<nat>, t: nat)
    requires Shape(c, s0) && OpsOk(ops) && ByAge(c, s0, ops, i, tags)
    ensures ByAge(c, s0, ops, i, Remove(tags, t))
  {
    var m, r := IndexOf(tags, t), Remove(tags, t);
    assert forall k :: 0 <= k < |r| ==> r[k] == tags[if k < m then k else k + 1];
  }

  /** An operation that renews no block of these tags. */
  lemma {:induction false} StayByAge(c: Config, s0: State, ops: seq<Op>, i: nat, tags: seq<nat>)
    requires Shape(c, s0) && OpsOk(ops) && ops != [] && ByAge(c, s0, ops[..|ops| - 1], i, tags)
    requires forall k :: 0 <= k < |tags| ==> !Renews(c, s0, ops, |ops| - 1, MkBlock(c, tags[k], i))
    ensures ByAge(c, s0, ops, i, tags)
  {
    forall j, k | 0 <= j < k < |tags|
      ensures OlderThan(c, s0, ops, MkBlock(c, tags[k], i), MkBlock(c, tags[j], i))
    {
      assert OlderThan(c, s0, ops[..|ops| - 1], MkBlock(c, tags[k], i), MkBlock(c, tags[j], i));
    }
  }

  /** An operation that renews the block of t, which goes to the head. */
  lemma {:induction false} HeadByAge(c: Config, s0: State, ops: seq<Op>, i: nat, tags: seq<nat>, t: nat)
    requires Shape(c, s0) && OpsOk(ops) && ops != [] && ByAge(c, s0, ops[..|ops| - 1], i, tags) && Distinct(tags)
    requires Renews(c, s0, ops, |ops| - 1, MkBlock(c, t, i)) && i < c.nsets
    ensures ByAge(c, s0, ops, i, ToHead(tags, t))
  {
    var rest, all := Remove(tags, t), ToHead(tags, t);
    RemoveDistinct(tags, t);
    RemoveByAge(c, s0, ops[..|ops| - 1], i, tags, t);
    forall k | 0 <= k < |rest|
      ensures !Renews(c, s0, ops, |ops| - 1, MkBlock(c, rest[k], i))
    {
      assert rest[k] in rest;
      BlockParts(c, rest[k], i, t, i);
    }
    StayByAge(c, s0, ops, i, rest);
    forall j, k | 0 <= j < k < |all|
      ensures OlderThan(c, s0, ops, MkBlock(c, all[k], i), MkBlock(c, all[j], i))
    {
      assert all[k] == rest[k - 1] && (j > 0 ==> all[j] == rest[j - 1]);
    }
  }

  lemma {:induction false} TakeByAge(c: Config, s0: State, ops: seq<Op>, i: nat, tags: seq<nat>, n: nat)
    requires Shape(c, s0) && OpsOk(ops) && ByAge(c, s0, ops, i, tags)
    ensures ByAge(c, s0, ops, i, Take(tags, n))
  {
    assert forall k :: 0 <= k < |Take(tags, n)| ==> Take(tags, n)[k] == tags[k];
  }

  /** The tags of a set after one more operation. */
  lemma {:induction false} StepByAge(c: Config, s0: State, ops: seq<Op>, i: nat)
    requires Shape(c, s0) && OpsOk(ops) && ops != [] && !c.policy.Random? && i < c.nsets
    requires Run(c, s0, ops).Ran? && Run(c, s0, ops[..|ops| - 1]).Ran?
    requires Ordered(c, Run(c, s0, ops[..|ops| - 1]).state)
    requires ByAge(c, s0, ops[..|ops| - 1], i, SetTags(c, Run(c, s0, ops[..|ops| - 1]).state, i))
    ensures ByAge(c, s0, ops, i, SetTags(c, Run(c, s0, ops).state, i))
  {
    var n := |ops| - 1;
    var s, s' := Run(c, s0, ops[..n]).state, Run(c, s0, ops).state;
    RunSnoc(c, s0, ops);
    match ops[n]
    case Access(cmd, addr, now) =>
      AccessTags(c, s, cmd, addr, now);
      AddressSplit(c, addr);
      AccessByAge(c, s0, ops, i, s, s');
    case Flush(_) => FlushTags(c, s, i);
    case FlushAddr(addr, _) =>
      FlushAddrTags(c, s, addr);
      StayByAge(c, s0, ops, i, SetTags(c, s, i));
      RemoveByAge(c, s0, ops, i, SetTags(c, s, i), AddrTag(c, addr));
  }

  lemma {:induction false} AccessByAge(c: Config, s0: State, ops: seq<Op>, i: nat, s: State, s': State)
    requires Shape(c, s0) && OpsOk(ops) && ops != [] && !c.policy.Random? && i < c.nsets && ops[|ops| - 1].Access?
    requires Run(c, s0, ops[..|ops| - 1]).Ran? && s == Run(c, s0, ops[..|ops| - 1]).state
    requires Ordered(c, s) && Shape(c, s') && OnlySet(c, s, s', AddrSet(c, ops[|ops| - 1].addr))
    requires ByAge(c, s0, ops[..|ops| - 1], i, SetTags(c, s, i))
    requires var a := ops[|ops| - 1].addr;
             var j, t := AddrSet(c, a), AddrTag(c, a);
             && MkBlock(c, t, j) == a / c.bsize
             && SetTags(c, s', j) == (if c.policy.FIFO? && t in SetTags(c, s, j) then SetTags(c, s, j)
                                      else Take(ToHead(SetTags(c, s, j), t), c.assoc))
    ensures ByAge(c, s0, ops, i, SetTags(c, s', i))
  {
    var a, tags := ops[|ops| - 1].addr, SetTags(c, s, i);
    var j, t := AddrSet(c, a), AddrTag(c, a);
    TagsDistinct(s.sets[i].order, s.sets[i].lines);
    TagsFind(c, j, s.sets[j], t);
    assert Cached(c, s, a) <==> t in SetTags(c, s, j);
    if i != j {
      forall k | 0 <= k < |tags|
        ensures !Renews(c, s0, ops, |ops| - 1, MkBlock(c, tags[k], i))
      {
        BlockParts(c, tags[k], i, t, j);
      }
      StayByAge(c, s0, ops, i, tags);
    } else if c.policy.FIFO? && t in tags {
      StayByAge(c, s0, ops, i, tags);
    } else {
      HeadByAge(c, s0, ops, i, tags, t);
      TakeByAge(c, s0, ops, i, ToHead(tags, t), c.assoc);
    }
  }

  /** In every run the blocks of a way list are ordered by age: under LRU by when
      they were last used, under FIFO by when they were last fetched. */
  lemma {:induction false} RunByAge(c: Config, mem: seq<Byte>, ops: seq<Op>, i: nat)
    requires ValidConfig(c) && |mem| == SPACE && OpsOk(ops) && !c.policy.Random? && i < c.nsets
    requires Run(c, Initial(c, mem), ops).Ran?
    ensures ByAge(c, Initial(c, mem), ops, i, SetTags(c, Run(c, Initial(c, mem), ops).state, i))
  {
    var s0 := Initial(c, mem);
    if ops == [] {
      NoTags(s0.sets[i].order, s0.sets[i].lines);
    } else {
      RunSnoc(c, s0, ops);
      RunByAge(c, mem, ops[..|ops| - 1], i);
      RunOrdered(c, mem, ops[..|ops| - 1]);
      StepByAge(c, s0, ops, i);
    }
  }

  /** Block b is older than b', or is b' itself. */
  ghost predicate NoYounger(c: Config, s0: State, ops: seq<Op>, b: nat, b': nat)
    requires Shape(c, s0) && OpsOk(ops)
  {
    b == b' || OlderThan(c, s0, ops, b, b')
  }

  lemma {:induction false} OldestTag(c: Config, s0: State, ops: seq<Op>, i: nat, tags: seq<nat>, tag: nat, u: nat)
    requires Shape(c, s0) && OpsOk(ops) && ByAge(c, s0, ops, i, tags)
    requires u in tags && tags[|tags| - 1] == tag
    ensures NoYounger(c, s0, ops, MkBlock(c, tag, i), MkBlock(c, u, i))
  {
    var k :| 0 <= k < |tags| && tags[k] == u;
  }

  /** The last valid block of a way list is no younger than any other of its set. */
  lemma {:induction false} LastIsOldest(c: Config, s0: State, ops: seq<Op>, s: State, i: nat, l: Line, u: nat)
    requires Shape(c, s0) && OpsOk(ops) && Shape(c, s) && i < c.nsets
    requires ByAge(c, s0, ops, i, SetTags(c, s, i)) && FindWay(s.sets[i].lines, u) < c.assoc
    requires l == s.sets[i].lines[s.sets[i].order[c.assoc - 1]] && l.valid
    ensures NoYounger(c, s0, ops, MkBlock(c, l.tag, i), MkBlock(c, u, i))
  {
    assert SetShape(c, i, s.sets[i]);
    LastTag(s.sets[i].order, s.sets[i].lines);
    TagsFind(c, i, s.sets[i], u);
    OldestTag(c, s0, ops, i, SetTags(c, s, i), l.tag, u);
  }

  lemma BlockNumbers(c: Config, a: nat, tag: nat, i: nat)
    requires ValidConfig(c) && a < SPACE && IsBlock(c, tag, i)
    ensures BlockNumber(a, c.bsize) == MkBlock(c, AddrTag(c, a), AddrSet(c, a))
    ensures BlockNumber(MkBaddr(c, tag, i), c.bsize) == MkBlock(c, tag, i)
  {
    AddressSplit(c, a);
    BaddrParts(c, tag, i);
    AddressSplit(c, MkBaddr(c, tag, i));
  }

  lemma LineBlock(c: Config, s: State, i: nat, w: nat)
    requires Shape(c, s) && i < c.nsets && w < c.assoc
    ensures var tag := s.sets[i].lines[w].tag;
            IsBlock(c, tag, i) && BlockNumber(MkBaddr(c, tag, i), c.bsize) == MkBlock(c, tag, i)
  {
    assert SetShape(c, i, s.sets[i]);
    BlockNumbers(c, 0, s.sets[i].lines[w].tag, i);
  }

  lemma GrantBlock(c: Config, s: State, cmd: Cmd, addr: nat, now: int, g: Grant)
    requires Shape(c, s) && !c.policy.Random? && addr < SPACE && Replaces(c, s, cmd, addr, now, g)
    ensures var l := s.sets[AddrSet(c, addr)].lines[Victim(c, s, AddrSet(c, addr))];
            l.valid && g.addr == MkBaddr(c, l.tag, AddrSet(c, addr))
  {
    AccessGrant(c, s, cmd, addr, now);
  }

  /** In any state whose way lists are ordered by age, the block that an access
      reports as replaced is no younger than any other block of its set. */
  lemma {:induction false} GrantIsOldest(c: Config, s0: State, ops: seq<Op>, s: State, cmd: Cmd, addr: nat, now: int,
                                         g: Grant, a: nat)
    requires Shape(c, s0) && OpsOk(ops) && Shape(c, s) && !c.policy.Random? && addr < SPACE && a < SPACE
    requires ByAge(c, s0, ops, AddrSet(c, addr), SetTags(c, s, AddrSet(c, addr)))
    requires Cached(c, s, a) && AddrSet(c, a) == AddrSet(c, addr) && Replaces(c, s, cmd, addr, now, g)
    ensures NoYounger(c, s0, ops, BlockNumber(g.addr, c.bsize), BlockNumber(a, c.bsize))
  {
    var i := AddrSet(c, addr);
    var l := s.sets[i].lines[Victim(c, s, i)];
    GrantBlock(c, s, cmd, addr, now, g);
    LineBlock(c, s, i, Victim(c, s, i));
    AddressSplit(c, a);
    LastIsOldest(c, s0, ops, s, i, l, AddrTag(c, a));
  }

  /** In every run the block replaced is the oldest of its set: under LRU the one
      used longest ago, under FIFO the one fetched longest ago. */
  lemma {:induction false} ReplacesOldest(c: Config, mem: seq<Byte>, ops: seq<Op>, cmd: Cmd, addr: nat, now: int,
                                          g: Grant, a: nat)
    requires ValidConfig(c) && |mem| == SPACE && OpsOk(ops) && !c.policy.Random? && addr < SPACE && a < SPACE
    requires CachedAfter(c, Initial(c, mem), ops, a) && AddrSet(c, a) == AddrSet(c, addr)
    requires Replaces(c, Run(c, Initial(c, mem), ops).state, cmd, addr, now, g)
    ensures NoYounger(c, Initial(c, mem), ops, BlockNumber(g.addr, c.bsize), BlockNumber(a, c.bsize))
  {
    RunByAge(c, mem, ops, AddrSet(c, addr));
    GrantIsOldest(c, Initial(c, mem), ops, Run(c, Initial(c, mem), ops).state, cmd, addr, now, g, a);
  }

  /** An access in this state replaces a block and reports grant g. */
  ghost predicate Replaces(c: Config, s: State, cmd: Cmd, addr: nat, now: int, g: Grant)
    requires Shape(c, s) && addr < SPACE
  {
    var r := CacheAccess(c, s, cmd, addr, now);
    r.Done? && r.reply.grant == Some(g)
  }
}
