/** Which accesses the two checks of cache_access really let through.  The
    comparison is in 32-bit arithmetic, and both sides can wrap to zero. */
module CacheFaults {
  import opened Pow2
  import opened FlatMemory
  import opened CacheModel
  import opened Options

  lemma AlignedEnd(addr: nat, n: nat, size: nat)
    requires n > 0 && addr < size && addr % n == 0 && size % n == 0
    ensures addr + n <= size
  {
    InBlock(size, n, addr);
  }

  /** n a multiple of d: an address aligned to n is aligned to d. */
  lemma AlignedTo(addr: nat, n: nat, d: nat)
    requires n > 0 && d > 0 && addr % n == 0 && n % d == 0
    ensures addr % d == 0
  {
    var k, m := addr / n, n / d;
    assert addr == k * n && n == m * d;
    Assoc(k, m, d);
    MultipleMod(k * m, d);
  }

  lemma WrapAt(x: nat)
    requires x <= SPACE
    ensures Wrap(x) == if x == SPACE then 0 else x
  {
  }

  /** An access aligned to a size that divides the block stays in its block. */
  lemma StaysInBlock(addr: nat, n: nat, d: nat)
    requires n > 0 && d > 0 && addr % n == 0 && d % n == 0
    ensures addr % d + n <= d
  {
    var o, q := addr % d, d / n;
    assert addr == (addr / d) * d + o && d == q * n;
    Assoc(addr / d, q, n);
    assert o == (addr / n - (addr / d) * q) * n by {
      Distribute(addr / n, (addr / d) * q, n);
    }
    MultipleMod(addr / n - (addr / d) * q, n);
    AlignedEnd(o, n, d);
  }

  /** Where an access and its block end, before wrapping. */
  lemma Ends(c: Config, addr: nat, n: nat)
    requires ValidConfig(c) && addr < SPACE && 0 < n <= SPACE
    requires PassesSizeTest(n) && PassesAlignTest(addr, n)
    ensures addr + n <= SPACE && addr - addr % c.bsize + c.bsize <= SPACE
    ensures if n <= c.bsize then addr % c.bsize + n <= c.bsize else addr % c.bsize == 0
  {
    SpaceIsPow2();
    Divides(n, SPACE);
    AlignedEnd(addr, n, SPACE);
    BlockEnd(c, addr);
    if n <= c.bsize {
      Divides(n, c.bsize);
      StaysInBlock(addr, n, c.bsize);
    } else {
      Divides(c.bsize, n);
      AlignedTo(addr, n, c.bsize);
    }
  }

  lemma BlockEnd(c: Config, addr: nat)
    requires ValidConfig(c) && addr < SPACE
    ensures addr - addr % c.bsize + c.bsize <= SPACE
  {
    SpaceSplits(c);
    InBlock(SPACE, c.bsize, addr);
  }

  /** For a sized and aligned access the spanning check passes exactly when the
      access ends at the top of the address space, or fits in a block that is
      not the topmost one. */
  lemma SpanCheckExact(c: Config, addr: nat, n: nat)
    requires ValidConfig(c) && addr < SPACE && 0 < n <= SPACE
    requires PassesSizeTest(n) && PassesAlignTest(addr, n)
    ensures Check(c, addr, n).None? <==>
              addr + n == SPACE || (n <= c.bsize && addr - addr % c.bsize + c.bsize < SPACE)
  {
    Ends(c, addr, n);
    WrapAt(addr + n);
    WrapAt(addr - addr % c.bsize + c.bsize);
  }

  /** Hence an accepted access leaves its block exactly when it is larger than
      a block, and then it ends at the top of the address space. */
  lemma OverrunExact(c: Config, addr: nat, n: nat)
    requires ValidConfig(c) && addr < SPACE && 0 < n <= SPACE && Check(c, addr, n).None?
    ensures addr % c.bsize + n > c.bsize <==> n > c.bsize
    ensures n > c.bsize ==> addr + n == SPACE
  {
    SpanCheckExact(c, addr, n);
    SpaceIsPow2();
    if n <= c.bsize {
      Divides(n, c.bsize);
      StaysInBlock(addr, n, c.bsize);
    }
  }

  /** Such an access exists: 16 bytes at 0xfffffff0 with 8-byte blocks. */
  lemma OverrunWitness(c: Config, s: State, now: int)
    requires Shape(c, s) && c.bsize == 8
    ensures CacheAccess(c, s, Read(16), 0xffff_fff0, now) == Halt(PastBlock)
  {
    assert IsPow2(4) && IsPow2(8) && IsPow2(16);
  }

  /** An access that fits its block is refused everywhere in the topmost block
      but at its end. */
  lemma TopBlockRefused(c: Config, s: State, cmd: Cmd, addr: nat, now: int)
    requires Shape(c, s) && 0 < cmd.Size() <= c.bsize
    requires PassesSizeTest(cmd.Size()) && PassesAlignTest(addr, cmd.Size())
    requires SPACE - c.bsize <= addr < SPACE - cmd.Size()
    ensures CacheAccess(c, s, cmd, addr, now) == Halt(SpansBlock)
  {
    SpanCheckExact(c, addr, cmd.Size());
    SpaceSplits(c);
    TopBlock(SPACE, c.bsize, addr);
  }

  lemma TopBlock(size: nat, d: nat, addr: nat)
    requires d > 0 && size % d == 0 && size >= d && size - d <= addr < size
    ensures addr - addr % d + d == size
  {
    var q := size / d - 1;
    assert size == (size / d) * d;
    Distribute(size / d, 1, d);
    assert 1 * d == d;
    DivModUnique(addr, d, q, addr - q * d);
  }

  // ---- the null block ----

  lemma FirstBlock(c: Config, addr: nat)
    requires ValidConfig(c)
    ensures addr / c.bsize == 0 <==> addr < c.bsize
  {
    assert addr == (addr / c.bsize) * c.bsize + addr % c.bsize;
    MulMonotone(addr / c.bsize, c.bsize);
  }

  /** "No last block" is stored as tagset 0, which is the tagset of block zero:
      an access follows the null pointer exactly when it passes both checks, is
      to block zero, and no block is remembered. */
  lemma BlockZeroExact(c: Config, s: State, cmd: Cmd, addr: nat, now: int)
    requires Shape(c, s) && addr < SPACE
    ensures CacheAccess(c, s, cmd, addr, now) == Halt(NullBlock) <==>
              Check(c, addr, cmd.Size()).None? && addr < c.bsize && s.last.None?
  {
    FirstBlock(c, addr);
  }

  /** What an operation does to the remembered block: a hit sets it; a miss, a
      flush, and an address flush of a cached block clear it. */
  datatype Trace = HitOn(b: nat) | Cleared | Nothing

  function TraceOf(c: Config, s: State, op: Op): Trace
    requires Shape(c, s) && OpOk(op)
  {
    match op
    case Access(_, addr, _) => if Cached(c, s, addr) then HitOn(BlockNumber(addr, c.bsize)) else Cleared
    case Flush(_) => Cleared
    case FlushAddr(addr, _) => if Cached(c, s, addr) then Cleared else Nothing
  }

  function Traces(c: Config, s: State, ops: seq<Op>): (ts: seq<Trace>)
    requires Shape(c, s) && OpsOk(ops)
    ensures |ts| <= |ops|
  {
    if ops == [] then []
    else
      var n := |ops| - 1;
      var before := Run(c, s, ops[..n]);
      Traces(c, s, ops[..n]) + if before.Ran? then [TraceOf(c, before.state, ops[n])] else []
  }

  /** Operation k was a hit on block b, and nothing has touched it since. */
  ghost predicate HitLast(ts: seq<Trace>, b: nat, k: nat) {
    k < |ts| && ts[k] == HitOn(b) && forall j :: k < j < |ts| ==> ts[j] == Nothing
  }

  ghost predicate Remembers(ts: seq<Trace>, b: nat) {
    exists k: nat :: HitLast(ts, b, k)
  }

  ghost predicate RemembersAny(ts: seq<Trace>) {
    exists b: nat :: Remembers(ts, b)
  }

  lemma RemembersSnoc(ts: seq<Trace>, t: Trace, b: nat)
    ensures Remembers(ts + [t], b) <==> t == HitOn(b) || (t == Nothing && Remembers(ts, b))
  {
    var all, n := ts + [t], |ts|;
    if t == HitOn(b) {
      assert HitLast(all, b, n);
    } else if t == Nothing && Remembers(ts, b) {
      var k: nat :| HitLast(ts, b, k);
      assert HitLast(all, b, k);
    } else if Remembers(all, b) {
      var k: nat :| HitLast(all, b, k);
      assert k < n && all[n] == t;
      assert forall j :: k < j < n ==> ts[j] == all[j];
      assert HitLast(ts, b, k);
    }
  }

  /** Which block is remembered, from the operations of the run. */
  lemma {:induction false} Remembered(c: Config, mem: seq<Byte>, ops: seq<Op>, b: nat)
    requires ValidConfig(c) && |mem| == SPACE && OpsOk(ops) && Run(c, Initial(c, mem), ops).Ran?
    ensures Run(c, Initial(c, mem), ops).state.last == Some(b) <==> Remembers(Traces(c, Initial(c, mem), ops), b)
  {
    if ops != [] {
      var s0, n := Initial(c, mem), |ops| - 1;
      var s := RunStep(c, s0, ops);
      Remembered(c, mem, ops[..n], b);
      RemembersStep(c, s, ops[n]);
      RemembersSnoc(Traces(c, s0, ops[..n]), TraceOf(c, s, ops[n]), b);
    }
  }

  /** The last step of a completed run. */
  lemma RunStep(c: Config, s0: State, ops: seq<Op>) returns (s: State)
    requires Shape(c, s0) && OpsOk(ops) && ops != [] && Run(c, s0, ops).Ran?
    ensures Run(c, s0, ops[..|ops| - 1]).Ran? && s == Run(c, s0, ops[..|ops| - 1]).state
    ensures Step(c, s, ops[|ops| - 1]).Done? && Run(c, s0, ops).state == Step(c, s, ops[|ops| - 1]).state
    ensures Traces(c, s0, ops) == Traces(c, s0, ops[..|ops| - 1]) + [TraceOf(c, s, ops[|ops| - 1])]
  {
    s := Run(c, s0, ops[..|ops| - 1]).state;
  }

  lemma RemembersStep(c: Config, s: State, op: Op)
    requires Shape(c, s) && OpOk(op) && Step(c, s, op).Done?
    ensures Step(c, s, op).state.last ==
              match TraceOf(c, s, op) case HitOn(b) => Some(b) case Cleared => None case Nothing => s.last
  {
    match op
    case Access(cmd, addr, now) =>
      AddressSplit(c, addr);
      if !Cached(c, s, addr) {
        var i, tag := AddrSet(c, addr), AddrTag(c, addr);
        var s1 := MissReordered(c, s, i);
        DropLast(c, Evict(c, s1, i, Victim(c, s, i), now).state, i, Victim(c, s, i));
      }
    case Flush(_) => FlushSetsLast(c, s.(last := None), c.nsets);
    case FlushAddr(addr, _) =>
  }

  lemma DropLast(c: Config, s: State, i: nat, w: nat)
    requires Shape(c, s) && i < c.nsets && w < c.assoc
    ensures Drop(c, s, i, w).last == s.last
  {
  }

  lemma {:induction false} LastSome(c: Config, mem: seq<Byte>, ops: seq<Op>)
    requires ValidConfig(c) && |mem| == SPACE && OpsOk(ops) && Run(c, Initial(c, mem), ops).Ran?
    ensures Run(c, Initial(c, mem), ops).state.last.Some? <==> RemembersAny(Traces(c, Initial(c, mem), ops))
  {
    var last := Run(c, Initial(c, mem), ops).state.last;
    if last.Some? {
      Remembered(c, mem, ops, last.value);
    } else if RemembersAny(Traces(c, Initial(c, mem), ops)) {
      var b: nat :| Remembers(Traces(c, Initial(c, mem), ops), b);
      Remembered(c, mem, ops, b);
    }
  }

  /** When a run goes through a null pointer: the next access is to block zero
      and passes both checks, and the last operation that was a hit, a miss or a
      flush of anything was not a hit. */
  lemma {:induction false} NullBlockExact(c: Config, mem: seq<Byte>, ops: seq<Op>, cmd: Cmd, addr: nat, now: int)
    requires ValidConfig(c) && |mem| == SPACE && OpsOk(ops) && addr < SPACE
    requires Run(c, Initial(c, mem), ops).Ran?
    ensures Run(c, Initial(c, mem), ops + [Access(cmd, addr, now)]) == Stopped(NullBlock) <==>
              && Check(c, addr, cmd.Size()).None? && addr < c.bsize
              && !RemembersAny(Traces(c, Initial(c, mem), ops))
  {
    var s0 := Initial(c, mem);
    var s := Run(c, s0, ops).state;
    RunSnoc(c, s0, ops, Access(cmd, addr, now));
    BlockZeroExact(c, s, cmd, addr, now);
    LastSome(c, mem, ops);
  }

  lemma {:induction false} RunSnoc(c: Config, s0: State, ops: seq<Op>, op: Op)
    requires Shape(c, s0) && OpsOk(ops) && OpOk(op) && Run(c, s0, ops).Ran?
    ensures var r := Step(c, Run(c, s0, ops).state, op);
            && (Run(c, s0, ops + [op]).Ran? <==> r.Done?)
            && (r.Halt? ==> Run(c, s0, ops + [op]) == Stopped(r.fault))
  {
    assert (ops + [op])[..|ops|] == ops;
  }

  // ---- which runs complete ----

  /** Sized, aligned, no larger than a block, and ending at the top of memory or
      not in its topmost block. (An access of size zero is aligned at address 0.) */
  predicate Accepted(c: Config, cmd: Cmd, addr: nat)
    requires ValidConfig(c)
  {
    var n := cmd.Size();
    && n <= c.bsize && PassesSizeTest(n) && PassesAlignTest(addr, n)
    && (addr + n == SPACE || n == 0 || addr - addr % c.bsize + c.bsize < SPACE)
  }

  lemma AcceptedExact(c: Config, s: State, cmd: Cmd, addr: nat, now: int)
    requires Shape(c, s) && addr < SPACE
    ensures CacheAccess(c, s, cmd, addr, now).Done? <==> Accepted(c, cmd, addr) && (addr < c.bsize ==> s.last.Some?)
  {
    FirstBlock(c, addr);
    var n := cmd.Size();
    BlockEnd(c, 0);
    if 0 < n <= SPACE && PassesSizeTest(n) && PassesAlignTest(addr, n) {
      SpanCheckExact(c, addr, n);
      if Check(c, addr, n).None? {
        OverrunExact(c, addr, n);
      }
    }
  }

  ghost predicate PassesAfter(c: Config, ts: seq<Trace>, op: Op)
    requires ValidConfig(c)
  {
    op.Access? ==> Accepted(c, op.cmd, op.addr) && (op.addr < c.bsize ==> RemembersAny(ts))
  }

  /** Operation k of a run does not stop it, if the operations before did not. */
  ghost predicate Passes(c: Config, s0: State, ops: seq<Op>, k: nat)
    requires Shape(c, s0) && OpsOk(ops) && k < |ops|
  {
    PassesAfter(c, Traces(c, s0, ops[..k]), ops[k])
  }

  ghost predicate AllPass(c: Config, s0: State, ops: seq<Op>)
    requires Shape(c, s0) && OpsOk(ops)
  {
    forall k: nat :: k < |ops| ==> Passes(c, s0, ops, k)
  }

  lemma AllPassSnoc(c: Config, s0: State, ops: seq<Op>)
    requires Shape(c, s0) && OpsOk(ops) && ops != []
    ensures AllPass(c, s0, ops) <==> AllPass(c, s0, ops[..|ops| - 1]) && Passes(c, s0, ops, |ops| - 1)
  {
    var front := ops[..|ops| - 1];
    forall k: nat | k < |front|
      ensures Passes(c, s0, front, k) == Passes(c, s0, ops, k)
    {
      assert front[..k] == ops[..k];
    }
  }

  /** A run completes exactly when each of its accesses is accepted and those to
      block zero find a remembered block; flushes never stop it. */
  lemma {:induction false} RunsExactly(c: Config, mem: seq<Byte>, ops: seq<Op>)
    requires ValidConfig(c) && |mem| == SPACE && OpsOk(ops)
    ensures Run(c, Initial(c, mem), ops).Ran? <==> AllPass(c, Initial(c, mem), ops)
  {
    if ops != [] {
      var s0, front, op := Initial(c, mem), ops[..|ops| - 1], ops[|ops| - 1];
      assert ops == front + [op];
      RunsExactly(c, mem, front);
      AllPassSnoc(c, s0, ops);
      assert Passes(c, s0, ops, |front|) <==> PassesAfter(c, Traces(c, s0, front), op);
      if Run(c, s0, front).Ran? {
        RunSnoc(c, s0, front, op);
        LastSome(c, mem, front);
        StepDone(c, Run(c, s0, front).state, op);
      }
    }
  }

  /** In particular accepted accesses to other blocks than block zero always run. */
  lemma {:induction false} OrdinaryRuns(c: Config, mem: seq<Byte>, ops: seq<Op>)
    requires ValidConfig(c) && |mem| == SPACE && OpsOk(ops)
    requires forall k :: 0 <= k < |ops| && ops[k].Access? ==>
               c.bsize <= ops[k].addr && Accepted(c, ops[k].cmd, ops[k].addr)
    ensures Run(c, Initial(c, mem), ops).Ran?
  {
    RunsExactly(c, mem, ops);
  }

  lemma StepDone(c: Config, s: State, op: Op)
    requires Shape(c, s) && OpOk(op)
    ensures Step(c, s, op).Done? <==>
              (op.Access? ==> Accepted(c, op.cmd, op.addr) && (op.addr < c.bsize ==> s.last.Some?))
  {
    if op.Access? {
      AcceptedExact(c, s, op.cmd, op.addr, op.now);
    }
  }
}
