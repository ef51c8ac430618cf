/** The set-associative write-back cache of lab3/cache.c as a state machine:
    per set a replacement order and its lines, one backing memory, the
    statistics counters and the bus.  There are no links, hash chains or
    last-block shortcut here; CacheLists and CacheUnit add those and refine this. */
module CacheModel {
  import opened Pow2
  import opened FlatMemory
  import opened Recency
  import opened Options

  datatype Policy = LRU | Random | FIFO

  /** `latency(k)` is what the k-th call of the block access function returns
      and `rand(m)` what the random generator returns at the m-th miss: both are
      arbitrary streams, so every behaviour of either is covered. */
  datatype Config = Config(nsets: nat, bsize: nat, assoc: nat, policy: Policy, hitLatency: nat,
                           latency: nat -> nat, rand: nat -> nat)

  /** The parameter checks of cache_create; beyond them a set index and a block
      offset have to fit in an address. */
  predicate ValidConfig(c: Config) {
    && IsPow2(c.nsets)
    && c.bsize >= 8 && IsPow2(c.bsize)
    && IsPow2(c.assoc)
    && c.nsets * c.bsize <= SPACE
  }

  datatype Line = Line(tag: nat, valid: bool, dirty: bool, ready: int, data: seq<Byte>)

  /** One set: `order` lists way numbers from head to tail of the way list. */
  datatype WaySet = WaySet(order: seq<nat>, lines: seq<Line>)

  /** `last` is the block that hit last, if remembered.  `calls` counts block
      access calls and `dirtied` clean-to-dirty transitions (history only). */
  datatype State = State(sets: seq<WaySet>, mem: seq<Byte>, busFree: int, last: Option<nat>, calls: nat,
                         hits: nat, misses: nat, replacements: nat, writebacks: nat, invalidations: nat,
                         dirtied: nat)

  // ---- addresses ----

  function NumBlocks(c: Config): nat
    requires ValidConfig(c)
  {
    SPACE / c.bsize
  }

  function BlockNumber(addr: nat, bsize: nat): nat
    requires bsize > 0
  {
    addr / bsize
  }

  function AddrTag(c: Config, addr: nat): nat
    requires ValidConfig(c)
  {
    MulMonotone(c.nsets, c.bsize);
    addr / (c.nsets * c.bsize)
  }

  function AddrSet(c: Config, addr: nat): (i: nat)
    requires ValidConfig(c)
    ensures i < c.nsets
  {
    (addr / c.bsize) % c.nsets
  }

  function MkBlock(c: Config, tag: nat, i: nat): nat {
    tag * c.nsets + i
  }

  function MkBaddr(c: Config, tag: nat, i: nat): nat {
    tag * (c.nsets * c.bsize) + i * c.bsize
  }

  // ---- well-formed states ----

  ghost predicate SetShape(c: Config, i: nat, ws: WaySet)
    requires ValidConfig(c)
  {
    && |ws.lines| == c.assoc
    && Perm(ws.order, c.assoc)
    && (forall w :: 0 <= w < c.assoc ==> |ws.lines[w].data| == c.bsize && MkBlock(c, ws.lines[w].tag, i) < NumBlocks(c))
  }

  ghost predicate Shape(c: Config, s: State) {
    && ValidConfig(c)
    && |s.mem| == SPACE
    && |s.sets| == c.nsets
    && forall i :: 0 <= i < c.nsets ==> SetShape(c, i, s.sets[i])
  }

  // ---- searching ----

  predicate Matches(l: Line, tag: nat) {
    l.valid && l.tag == tag
  }

  /** The way holding `tag`, or |lines| when there is none. */
  function FindWay(lines: seq<Line>, tag: nat): (w: nat)
    ensures w <= |lines|
    ensures w < |lines| ==> Matches(lines[w], tag)
    ensures forall j :: 0 <= j < w ==> !Matches(lines[j], tag)
  {
    if lines == [] || Matches(lines[0], tag) then 0 else 1 + FindWay(lines[1..], tag)
  }

  // ---- building blocks of the operations ----

  function WithLine(s: State, i: nat, w: nat, l: Line): State
    requires i < |s.sets| && w < |s.sets[i].lines|
  {
    s.(sets := s.sets[i := s.sets[i].(lines := s.sets[i].lines[w := l])])
  }

  function WithOrder(s: State, i: nat, order: seq<nat>): State
    requires i < |s.sets|
  {
    s.(sets := s.sets[i := s.sets[i].(order := order)])
  }

  lemma InRange(c: Config, b: nat)
    requires ValidConfig(c) && b < NumBlocks(c)
    ensures b * c.bsize + c.bsize <= SPACE && SPACE % c.bsize == 0
  {
    SpaceSplits(c);
    BlockFits(SPACE, c.bsize, b);
  }

  lemma SpaceSplits(c: Config)
    requires ValidConfig(c)
    ensures SPACE % c.bsize == 0 && c.nsets <= NumBlocks(c) && NumBlocks(c) % c.nsets == 0
  {
    SpaceIsPow2();
    Product(c.nsets, c.bsize);
    Divides(c.nsets * c.bsize, SPACE);
    SplitTwice(SPACE, c.nsets, c.bsize);
  }

  lemma SplitTwice(x: nat, n: nat, d: nat)
    requires n > 0 && d > 0 && x > 0 && n * d > 0 && x % (n * d) == 0
    ensures x % d == 0 && (x / d) % n == 0 && n <= x / d
  {
    var q := x / (n * d);
    Assoc(q, n, d);
    assert x == q * (n * d);
    MultipleMod(q * n, d);
    MultipleMod(q, n);
    MulMonotone(q, n);
  }

  function BlockOf(c: Config, s: State, b: nat): (d: seq<Byte>)
    requires Shape(c, s) && b < NumBlocks(c)
    ensures |d| == c.bsize
  {
    InRange(c, b);
    ReadBlock(s.mem, c.bsize, b)
  }

  /** The block of an address is in the cache. */
  predicate Cached(c: Config, s: State, addr: nat)
    requires Shape(c, s) && addr < SPACE
  {
    FindWay(s.sets[AddrSet(c, addr)].lines, AddrTag(c, addr)) < c.assoc
  }

  /** Write the line back if it is valid and dirty, and invalidate it. */
  function Drop(c: Config, s: State, i: nat, w: nat): (s': State)
    requires Shape(c, s) && i < c.nsets && w < c.assoc
    ensures Shape(c, s')
  {
    var l := s.sets[i].lines[w];
    var b := MkBlock(c, l.tag, i);
    InRange(c, b);
    var s1 := WithLine(s, i, w, l.(valid := false));
    if l.valid && l.dirty then
      s1.(mem := WriteBlock(s.mem, c.bsize, b, l.data), writebacks := s.writebacks + 1, calls := s.calls + 1)
    else
      s1
  }

  /** Read a block from memory into the line; it starts out clean. */
  function Fill(c: Config, s: State, i: nat, w: nat, tag: nat, ready: int): (s': State)
    requires Shape(c, s) && i < c.nsets && w < c.assoc && MkBlock(c, tag, i) < NumBlocks(c)
    ensures Shape(c, s')
  {
    WithLine(s, i, w, Line(tag, true, false, ready, BlockOf(c, s, MkBlock(c, tag, i)))).(calls := s.calls + 1)
  }

  datatype Cmd = Read(n: nat) | Write(bytes: seq<Byte>) {
    function Size(): nat {
      if Read? then n else |bytes|
    }
  }

  /** Copy between the line and the caller; a write makes the line dirty. */
  function Touch(c: Config, s: State, i: nat, w: nat, o: nat, cmd: Cmd): (s': State)
    requires Shape(c, s) && i < c.nsets && w < c.assoc && o + cmd.Size() <= c.bsize
    ensures Shape(c, s')
  {
    if cmd.Read? then s
    else
      var l := s.sets[i].lines[w];
      WithLine(s, i, w, l.(dirty := true, data := Splice(l.data, o, cmd.bytes)))
        .(dirtied := s.dirtied + if l.dirty then 0 else 1)
  }

  /** BOUND_POS: negative waits are zero and long ones are cut at INT_MAX. */
  const CAP := 0x7fff_ffff

  function Bound(x: int): (r: nat)
    ensures x <= r <= CAP || (r == CAP < x)
    ensures r == 0 || r <= x
  {
    if x < 0 then 0 else if x > CAP then CAP else x
  }

  function Max(a: int, b: int): int {
    if a > b then a else b
  }

  /** What a replacement of a valid block reports: the bus cycle it was given,
      the earliest cycles it had to respect, and its block address. */
  datatype Grant = Grant(cycle: int, ready: int, busFree: int, now: int, addr: nat) {
    /** Neither wait was cut by BOUND_POS. */
    predicate Uncapped() {
      ready - now <= CAP && busFree - Max(now, ready) <= CAP
    }
  }

  datatype Evicted = Evicted(state: State, lat: nat, grant: Option<Grant>)

  function Evict(c: Config, s: State, i: nat, w: nat, now: int): (e: Evicted)
    requires Shape(c, s) && i < c.nsets && w < c.assoc
    ensures Shape(c, e.state)
  {
    var l := s.sets[i].lines[w];
    if !l.valid then Evicted(s, 0, None)
    else
      var lat1 := Bound(l.ready - now);
      var lat2 := lat1 + Bound(s.busFree - (now + lat1));
      var s1 := s.(replacements := s.replacements + 1, busFree := Max(s.busFree, now + lat2) + 1);
      Evicted(Drop(c, s1, i, w),
              lat2 + if l.dirty then c.latency(s.calls) else 0,
              Some(Grant(now + lat2, l.ready, s.busFree, now, MkBaddr(c, l.tag, i))))
  }

  /** The way to replace on a miss. */
  function Victim(c: Config, s: State, i: nat): (w: nat)
    requires Shape(c, s) && i < c.nsets
    ensures w < c.assoc
  {
    if c.policy.Random? then c.rand(s.misses) % c.assoc
    else s.sets[i].order[c.assoc - 1]
  }

  // ---- the operations ----

  datatype Op = Access(cmd: Cmd, addr: nat, now: int)
              | Flush(now: int)
              | FlushAddr(addr: nat, now: int)

  predicate OpOk(op: Op) {
    !op.Flush? ==> op.addr < SPACE
  }

  /** The first two are fatal() calls; the last two are C's undefined behaviour. */
  datatype Fault = BadAlignment | SpansBlock | NullBlock | PastBlock

  datatype Reply = Reply(data: seq<Byte>, latency: int, grant: Option<Grant>)

  datatype Outcome = Done(state: State, reply: Reply) | Halt(fault: Fault)

  /** The two checks at the top of cache_access, in 32-bit arithmetic. */
  function Check(c: Config, addr: nat, n: nat): (f: Option<Fault>)
    requires ValidConfig(c)
  {
    if !(PassesSizeTest(n) && PassesAlignTest(addr, n)) then Some(BadAlignment)
    else if Wrap(addr + n) > Wrap(addr - addr % c.bsize + c.bsize) then Some(SpansBlock)
    else None
  }

  lemma {:induction false} AddressSplit(c: Config, addr: nat)
    requires ValidConfig(c) && addr < SPACE
    ensures MkBlock(c, AddrTag(c, addr), AddrSet(c, addr)) == addr / c.bsize < NumBlocks(c)
    ensures MkBaddr(c, AddrTag(c, addr), AddrSet(c, addr)) == addr - addr % c.bsize == (addr / c.bsize) * c.bsize
  {
    SpaceSplits(c);
    InBlock(SPACE, c.bsize, addr);
    SplitArith(addr, c.bsize, c.nsets);
  }

  lemma SplitArith(a: nat, d: nat, n: nat)
    requires d > 0 && n > 0
    ensures n * d > 0 && (a / (n * d)) * n + (a / d) % n == a / d
    ensures (a / (n * d)) * (n * d) + ((a / d) % n) * d == (a / d) * d == a - a % d
  {
    TagIsDivided(a, d, n);
    Rejoin(a / d, n, d);
  }

  lemma Rejoin(b: nat, n: nat, d: nat)
    requires n > 0
    ensures (b / n) * n + b % n == b && (b / n) * (n * d) + (b % n) * d == b * d
  {
    Assoc(b / n, n, d);
    Distribute((b / n) * n, b % n, d);
  }

  lemma TagIsDivided(a: nat, d: nat, n: nat)
    requires d > 0 && n > 0
    ensures n * d > 0 && a / (n * d) == (a / d) / n
  {
    MulMonotone(n, d);
    var b := a / d;
    var r := b % n;
    Rejoin(b, n, d);
    assert r * d + a % d < n * d by {
      Distribute(n, r, d);
      MulMonotone(n - r, d);
    }
    DivModUnique(a, n * d, b / n, r * d + a % d);
  }

  function MoveToHead(c: Config, s: State, i: nat, w: nat): (s': State)
    requires Shape(c, s) && i < c.nsets && w < c.assoc
    ensures Shape(c, s')
  {
    PermMove(s.sets[i].order, c.assoc, w);
    WithOrder(s, i, ToHead(s.sets[i].order, w))
  }

  function MoveToTail(c: Config, s: State, i: nat, w: nat): (s': State)
    requires Shape(c, s) && i < c.nsets && w < c.assoc
    ensures Shape(c, s')
  {
    PermMove(s.sets[i].order, c.assoc, w);
    WithOrder(s, i, ToTail(s.sets[i].order, w))
  }

  function Hit(c: Config, s: State, i: nat, w: nat, b: nat, o: nat, cmd: Cmd, now: int): (r: Outcome)
    requires Shape(c, s) && i < c.nsets && w < c.assoc && o + cmd.Size() <= c.bsize
    ensures r.Done? && Shape(c, r.state)
  {
    var l := s.sets[i].lines[w];
    var s1 := Touch(c, s, i, w, o, cmd).(hits := s.hits + 1, last := Some(b));
    var s2 := if c.policy.LRU? then MoveToHead(c, s1, i, w) else s1;
    Done(s2, Reply(if cmd.Read? then l.data[o..o + cmd.n] else [], Max(c.hitLatency, l.ready - now), None))
  }

  /** A miss is counted and its victim takes its place in the replacement order. */
  function MissReordered(c: Config, s: State, i: nat): (s': State)
    requires Shape(c, s) && i < c.nsets
    ensures Shape(c, s')
  {
    var s1 := s.(misses := s.misses + 1, last := None);
    if c.policy.Random? then s1 else MoveToHead(c, s1, i, Victim(c, s, i))
  }

  /** Evict line w and fetch the block with this tag into it. */
  function Refill(c: Config, s: State, i: nat, w: nat, tag: nat, now: int): (m: Evicted)
    requires Shape(c, s) && i < c.nsets && w < c.assoc && MkBlock(c, tag, i) < NumBlocks(c)
    ensures Shape(c, m.state)
  {
    var e := Evict(c, s, i, w, now);
    var lat := e.lat + c.latency(e.state.calls);
    Evicted(Fill(c, e.state, i, w, tag, now + lat), lat, e.grant)
  }

  function Miss(c: Config, s: State, i: nat, tag: nat, o: nat, cmd: Cmd, now: int): (r: Outcome)
    requires Shape(c, s) && i < c.nsets && MkBlock(c, tag, i) < NumBlocks(c) && o + cmd.Size() <= c.bsize
    ensures r.Done? && Shape(c, r.state)
  {
    var w := Victim(c, s, i);
    var m := Refill(c, MissReordered(c, s, i), i, w, tag, now);
    Done(Touch(c, m.state, i, w, o, cmd),
         Reply(if cmd.Read? then m.state.sets[i].lines[w].data[o..o + cmd.n] else [], m.lat, m.grant))
  }

  /** Why an access of n bytes is not served: a check fails, or C's behaviour is
      undefined. `noLast` says that no block is remembered. */
  function Refused(c: Config, noLast: bool, addr: nat, n: nat): Option<Fault>
    requires ValidConfig(c)
  {
    var check := Check(c, addr, n);
    if check.Some? then check
    else if addr / c.bsize == 0 && noLast then Some(NullBlock)
    else if addr % c.bsize + n > c.bsize then Some(PastBlock)
    else None
  }

  function CacheAccess(c: Config, s: State, cmd: Cmd, addr: nat, now: int): (r: Outcome)
    requires Shape(c, s) && addr < SPACE
    ensures r.Done? ==> Shape(c, r.state)
  {
    var refused := Refused(c, s.last.None?, addr, cmd.Size());
    if refused.Some? then Halt(refused.value)
    else
      var tag, i := AddrTag(c, addr), AddrSet(c, addr);
      var w := FindWay(s.sets[i].lines, tag);
      AddressSplit(c, addr);
      if w < c.assoc then Hit(c, s, i, w, addr / c.bsize, addr % c.bsize, cmd, now)
      else Miss(c, s, i, tag, addr % c.bsize, cmd, now)
  }

  function Invalidate(c: Config, s: State, i: nat, w: nat): (s': State)
    requires Shape(c, s) && i < c.nsets && w < c.assoc
    ensures Shape(c, s')
  {
    if s.sets[i].lines[w].valid then Drop(c, s.(invalidations := s.invalidations + 1), i, w) else s
  }

  /** The first k ways of set i in list order have been invalidated. */
  function FlushWays(c: Config, s: State, i: nat, k: nat): (s': State)
    requires Shape(c, s) && i < c.nsets && k <= c.assoc
    ensures Shape(c, s')
  {
    if k == 0 then s else Invalidate(c, FlushWays(c, s, i, k - 1), i, s.sets[i].order[k - 1])
  }

  function FlushSets(c: Config, s: State, i: nat): (s': State)
    requires Shape(c, s) && i <= c.nsets
    ensures Shape(c, s')
  {
    if i == 0 then s else FlushWays(c, FlushSets(c, s, i - 1), i - 1, c.assoc)
  }

  /** Sum of the latencies of the block access calls numbered from..to-1. */
  function LatencySum(c: Config, from: nat, to: nat): nat
    requires from <= to
  {
    if from == to then 0 else LatencySum(c, from, to - 1) + c.latency(to - 1)
  }

  function CacheFlush(c: Config, s: State): (r: Outcome)
    requires Shape(c, s)
    ensures r.Done? && Shape(c, r.state)
  {
    var s1 := FlushSets(c, s.(last := None), c.nsets);
    Done(s1, Reply([], c.hitLatency + if s.calls <= s1.calls then LatencySum(c, s.calls, s1.calls) else 0, None))
  }

  // Flushing does not bring the last block back.

  lemma {:induction false} FlushWaysLast(c: Config, s: State, i: nat, k: nat)
    requires Shape(c, s) && i < c.nsets && k <= c.assoc
    ensures FlushWays(c, s, i, k).last == s.last
  {
    if k > 0 {
      FlushWaysLast(c, s, i, k - 1);
    }
  }

  lemma {:induction false} FlushSetsLast(c: Config, s: State, i: nat)
    requires Shape(c, s) && i <= c.nsets
    ensures FlushSets(c, s, i).last == s.last
  {
    if i > 0 {
      FlushSetsLast(c, s, i - 1);
      FlushWaysLast(c, FlushSets(c, s, i - 1), i - 1, c.assoc);
    }
  }

  function CacheFlushAddr(c: Config, s: State, addr: nat): (r: Outcome)
    requires Shape(c, s) && addr < SPACE
    ensures r.Done? && Shape(c, r.state)
  {
    var i := AddrSet(c, addr);
    var w := FindWay(s.sets[i].lines, AddrTag(c, addr));
    if w == c.assoc then Done(s, Reply([], c.hitLatency, None))
    else
      var lat := c.hitLatency + if s.sets[i].lines[w].dirty then c.latency(s.calls) else 0;
      var s1 := Invalidate(c, s.(last := None), i, w);
      Done(MoveToTail(c, s1, i, w), Reply([], lat, None))
  }

  function Step(c: Config, s: State, op: Op): (r: Outcome)
    requires Shape(c, s) && OpOk(op)
    ensures r.Done? ==> Shape(c, r.state)
  {
    match op
    case Access(cmd, addr, now) => CacheAccess(c, s, cmd, addr, now)
    case Flush(_) => CacheFlush(c, s)
    case FlushAddr(addr, _) => CacheFlushAddr(c, s, addr)
  }

  // ---- runs ----

  /** cache_create: lines are pushed on the head of the way list one by one. */
  function Initial(c: Config, mem: seq<Byte>): (s: State)
    requires ValidConfig(c) && |mem| == SPACE
    ensures Shape(c, s)
  {
    SpaceSplits(c);
    var empty := WaySet(seq(c.assoc, k requires 0 <= k < c.assoc => c.assoc - 1 - k),
                        seq(c.assoc, _ => Line(0, false, false, 0, seq(c.bsize, _ => 0))));
    State(seq(c.nsets, _ => empty), mem, 0, None, 0, 0, 0, 0, 0, 0, 0)
  }

  datatype RunResult = Ran(state: State, replies: seq<Reply>) | Stopped(fault: Fault)

  predicate OpsOk(ops: seq<Op>) {
    forall k :: 0 <= k < |ops| ==> OpOk(ops[k])
  }

  /** Run a sequence of operations; a fault ends the simulation. */
  function Run(c: Config, s: State, ops: seq<Op>): (r: RunResult)
    requires Shape(c, s) && OpsOk(ops)
    ensures r.Ran? ==> Shape(c, r.state) && |r.replies| == |ops|
  {
    if ops == [] then Ran(s, [])
    else
      var n := |ops| - 1;
      var before := Run(c, s, ops[..n]);
      if before.Stopped? then before
      else
        match Step(c, before.state, ops[n])
        case Done(s', reply) => Ran(s', before.replies + [reply])
        case Halt(f) => Stopped(f)
  }
}
