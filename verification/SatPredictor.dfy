/** The static and the 2-bit saturating predictors (lab2/sim-safe.c): over every
    run, the saturating one is at most twice as wrong as either constant guess. */
module SatPredictor {

  /** A conditional branch: where it is, and whether it was taken. */
  datatype Branch = Branch(pc: nat, taken: bool)

  /** The counters, and how often each predictor was wrong. */
  datatype Stats = Stats(table: seq<nat>, branches: nat, misStatic: nat, misTwoBit: nat) {
    ghost predicate Valid() {
      |table| == 4096 && forall k :: 0 <= k < 4096 ==> table[k] <= 3
    }
  }

  /** The 12 address bits above the instruction offset. */
  function Index(pc: nat): (i: nat)
    ensures i < 4096
  {
    (pc / 8) % 4096
  }

  function Step(s: Stats, b: Branch): (s': Stats)
    requires s.Valid()
    ensures s'.Valid()
  {
    var i := Index(b.pc);
    var c := s.table[i];
    if b.taken then
      Stats(s.table[i := if c < 3 then c + 1 else c], s.branches + 1, s.misStatic + 1,
            s.misTwoBit + if c <= 1 then 1 else 0)
    else
      Stats(s.table[i := if c > 0 then c - 1 else c], s.branches + 1, s.misStatic,
            s.misTwoBit + if c >= 2 then 1 else 0)
  }

  function Initial(): (s: Stats)
    ensures s.Valid()
  {
    Stats(seq(4096, _ => 1), 0, 0, 0)
  }

  function Run(s: Stats, bs: seq<Branch>): (s': Stats)
    requires s.Valid()
    ensures s'.Valid()
  {
    if bs == [] then s else Step(Run(s, bs[..|bs| - 1]), bs[|bs| - 1])
  }

  lemma {:induction false} RunSnoc(s: Stats, bs: seq<Branch>, b: Branch)
    requires s.Valid()
    ensures Run(s, bs + [b]) == Step(Run(s, bs), b)
  {
    assert (bs + [b])[..|bs|] == bs;
  }

  // ---- mispredictions, from the outcomes alone ----

  /** The outcomes, oldest first, of the branches that share counter i. */
  function Outcomes(bs: seq<Branch>, i: nat): seq<bool> {
    if bs == [] then []
    else
      var b := bs[|bs| - 1];
      Outcomes(bs[..|bs| - 1], i) + if (b.pc / 8) % 4096 == i then [b.taken] else []
  }

  /** Counting up for taken and down for not taken, from 1, within 0 and 3. */
  function Level(outs: seq<bool>): (c: nat)
    ensures c <= 3
  {
    if outs == [] then 1
    else
      var c: int := Level(outs[..|outs| - 1]) + if outs[|outs| - 1] then 1 else -1;
      if c < 0 then 0 else if c > 3 then 3 else c
  }

  /** The upper half of the range predicts taken. */
  predicate PredictsTaken(outs: seq<bool>) {
    Level(outs) > 1
  }

  /** Branch k is predicted from the outcomes before it, and the other way comes true. */
  predicate Mispredicted(bs: seq<Branch>, k: nat)
    requires k < |bs|
  {
    PredictsTaken(Outcomes(bs[..k], (bs[k].pc / 8) % 4096)) != bs[k].taken
  }

  ghost function Mispredictions(bs: seq<Branch>): set<nat> {
    set k: nat | k < |bs| && Mispredicted(bs, k)
  }

  ghost function TakenBranches(bs: seq<Branch>): set<nat> {
    set k: nat | k < |bs| && bs[k].taken
  }

  lemma {:induction false} OutcomesSnoc(bs: seq<Branch>, b: Branch, i: nat)
    ensures Outcomes(bs + [b], i) == if Index(b.pc) == i then Outcomes(bs, i) + [b.taken] else Outcomes(bs, i)
  {
    assert (bs + [b])[..|bs|] == bs && Outcomes(bs, i) + [] == Outcomes(bs, i);
  }

  lemma {:induction false} LevelSnoc(outs: seq<bool>, o: bool)
    ensures Level(outs + [o]) == if o then (if Level(outs) < 3 then Level(outs) + 1 else 3)
                                 else (if Level(outs) > 0 then Level(outs) - 1 else 0)
  {
    assert (outs + [o])[..|outs|] == outs;
  }

  /** Two equal outcomes decide the prediction; after three, one other outcome does
      not change it. */
  lemma {:induction false} PredictionSettles(outs: seq<bool>, o: bool)
    ensures PredictsTaken(outs + [o] + [o]) == o
    ensures PredictsTaken(outs + [o] + [o] + [o] + [!o]) == o
  {
    LevelSnoc(outs, o);
    LevelSnoc(outs + [o], o);
    LevelSnoc(outs + [o] + [o], o);
    LevelSnoc(outs + [o] + [o] + [o], !o);
  }

  lemma OneMore(a: set<nat>, b: set<nat>, n: nat, more: bool)
    requires n !in a && b == if more then a + {n} else a
    ensures |b| == |a| + if more then 1 else 0
  {
  }

  lemma {:induction false} SamePast(bs: seq<Branch>, b: Branch, k: nat)
    requires k < |bs|
    ensures Mispredicted(bs + [b], k) == Mispredicted(bs, k)
  {
    assert (bs + [b])[..k] == bs[..k];
  }

  lemma {:induction false} MispredictionsSnoc(bs: seq<Branch>, b: Branch)
    ensures |Mispredictions(bs + [b])|
         == |Mispredictions(bs)| + if PredictsTaken(Outcomes(bs, Index(b.pc))) != b.taken then 1 else 0
  {
    var all, n := bs + [b], |bs|;
    assert all[..n] == bs && all[n] == b;
    forall k: nat
      ensures k in Mispredictions(all) <==> k in Mispredictions(bs) || (k == n && Mispredicted(all, n))
    {
      if k < n {
        SamePast(bs, b, k);
      }
    }
    OneMore(Mispredictions(bs), Mispredictions(all), n, Mispredicted(all, n));
  }

  lemma {:induction false} TakenSnoc(bs: seq<Branch>, b: Branch)
    ensures |TakenBranches(bs + [b])| == |TakenBranches(bs)| + if b.taken then 1 else 0
  {
    var all, n := bs + [b], |bs|;
    assert all[n] == b && forall k :: 0 <= k < n ==> all[k] == bs[k];
    OneMore(TakenBranches(bs), TakenBranches(all), n, b.taken);
  }

  /** In every run each counter is the level of its branches' outcomes, and the
      counts are those of the mispredictions and of the taken branches. */
  lemma {:induction false} CountsExact(bs: seq<Branch>)
    ensures var s := Run(Initial(), bs);
            && s.branches == |bs|
            && s.misTwoBit == |Mispredictions(bs)| && s.misStatic == |TakenBranches(bs)|
            && forall i :: 0 <= i < 4096 ==> s.table[i] == Level(Outcomes(bs, i))
  {
    if bs == [] {
      assert Mispredictions(bs) == {} && TakenBranches(bs) == {};
    } else {
      var front, b := bs[..|bs| - 1], bs[|bs| - 1];
      assert bs == front + [b];
      CountsExact(front);
      RunSnoc(Initial(), front, b);
      MispredictionsSnoc(front, b);
      TakenSnoc(front, b);
      LevelSnoc(Outcomes(front, Index(b.pc)), b.taken);
      forall i: nat | i < 4096
        ensures Outcomes(bs, i) == if Index(b.pc) == i then Outcomes(front, i) + [b.taken] else Outcomes(front, i)
      {
        OutcomesSnoc(front, b, i);
      }
    }
  }

  // ---- the potentials ----

  /** What a counter may still cost against "never taken", and against "always taken". */
  function CostUp(c: nat): nat {
    if c <= 1 then 0 else c - 1
  }

  function CostDown(c: nat): nat {
    if c >= 2 then 0 else 2 - c
  }

  function SumUp(table: seq<nat>): nat {
    if table == [] then 0 else SumUp(table[..|table| - 1]) + CostUp(table[|table| - 1])
  }

  function SumDown(table: seq<nat>): nat {
    if table == [] then 0 else SumDown(table[..|table| - 1]) + CostDown(table[|table| - 1])
  }

  lemma {:induction false} SumsAfter(table: seq<nat>, i: nat, c: nat)
    requires i < |table|
    ensures SumUp(table[i := c]) == SumUp(table) - CostUp(table[i]) + CostUp(c)
    ensures SumDown(table[i := c]) == SumDown(table) - CostDown(table[i]) + CostDown(c)
  {
    var n := |table| - 1;
    if i == n {
      assert table[i := c][..n] == table[..n];
    } else {
      assert table[i := c][..n] == table[..n][i := c];
      SumsAfter(table[..n], i, c);
    }
  }

  lemma {:induction false} SumsOfOnes(table: seq<nat>)
    requires forall k :: 0 <= k < |table| ==> table[k] == 1
    ensures SumUp(table) == 0 && SumDown(table) == |table|
  {
    if table != [] {
      SumsOfOnes(table[..|table| - 1]);
    }
  }

  /** What every run keeps: mispredictions so far and possible ones to come are
      within twice the mispredictions of each constant guess. */
  ghost predicate Bounded(s: Stats) {
    && s.misTwoBit + SumUp(s.table) <= 2 * s.misStatic
    && s.misStatic <= s.branches
    && s.misTwoBit + SumDown(s.table) <= 2 * (s.branches - s.misStatic) + 4096
  }

  lemma StepBounded(s: Stats, b: Branch)
    requires s.Valid() && Bounded(s)
    ensures Bounded(Step(s, b))
  {
    var i := Index(b.pc);
    var c := s.table[i];
    SumsAfter(s.table, i, if b.taken then (if c < 3 then c + 1 else c) else (if c > 0 then c - 1 else c));
  }

  lemma {:induction false} RunBounded(bs: seq<Branch>)
    ensures Bounded(Run(Initial(), bs))
  {
    if bs == [] {
      SumsOfOnes(Initial().table);
    } else {
      RunBounded(bs[..|bs| - 1]);
      StepBounded(Run(Initial(), bs[..|bs| - 1]), bs[|bs| - 1]);
    }
  }

  /** In every run the 2-bit predictor mispredicts at most twice as often as "never
      taken", and at most twice as often as "always taken" plus once for each counter. */
  lemma {:induction false} Competitive(bs: seq<Branch>)
    ensures |Mispredictions(bs)| <= 2 * |TakenBranches(bs)|
    ensures |Mispredictions(bs)| <= 2 * (|bs| - |TakenBranches(bs)|) + 4096
  {
    RunBounded(bs);
    CountsExact(bs);
  }

  // ---- both bounds are attained ----

  /** A branch that is taken every other time. */
  function Alternating(pc: nat, n: nat): (bs: seq<Branch>)
    ensures |bs| == 2 * n
  {
    if n == 0 then [] else Alternating(pc, n - 1) + [Branch(pc, true)] + [Branch(pc, false)]
  }

  lemma {:induction false} TwiceAsWrong(pc: nat, n: nat)
    ensures var s := Run(Initial(), Alternating(pc, n));
            s.misStatic == n && s.misTwoBit == 2 * n && s.table[Index(pc)] == 1
  {
    if n > 0 {
      TwiceAsWrong(pc, n - 1);
      var before := Alternating(pc, n - 1);
      RunSnoc(Initial(), before, Branch(pc, true));
      RunSnoc(Initial(), before + [Branch(pc, true)], Branch(pc, false));
    }
  }

  /** n branches with counters of their own, each taken once. */
  function EachOnce(n: nat): (bs: seq<Branch>)
    ensures |bs| == n
  {
    if n == 0 then [] else EachOnce(n - 1) + [Branch(8 * (n - 1), true)]
  }

  lemma FirstTaken(s: Stats, k: nat)
    requires s.Valid() && k < 4096 && s.table[k] == 1
    ensures Step(s, Branch(8 * k, true)) == Stats(s.table[k := 2], s.branches + 1, s.misStatic + 1, s.misTwoBit + 1)
  {
    assert Index(8 * k) == k;
  }

  lemma {:induction false} EachCounterWrong(n: nat)
    requires n <= 4096
    ensures var s := Run(Initial(), EachOnce(n));
            && s.misStatic == s.branches == n && s.misTwoBit == n
            && forall k :: n <= k < 4096 ==> s.table[k] == 1
  {
    if n > 0 {
      EachCounterWrong(n - 1);
      RunSnoc(Initial(), EachOnce(n - 1), Branch(8 * (n - 1), true));
      FirstTaken(Run(Initial(), EachOnce(n - 1)), n - 1);
    }
  }

  // ---- the counters in place ----

  class Simulator {
    const table: array<nat>
    var branches: nat
    var misStatic: nat
    var misTwoBit: nat

    ghost predicate Valid()
      reads this, table
    {
      table.Length == 4096 && Value().Valid()
    }

    ghost function Value(): Stats
      reads this, table
    {
      Stats(table[..], branches, misStatic, misTwoBit)
    }

    constructor ()
      ensures Valid() && Value() == Initial() && fresh(table)
    {
      table := new nat[4096](_ => 1);
      branches, misStatic, misTwoBit := 0, 0, 0;
      new;
      assert table[..] == Initial().table;
    }

    /** One conditional branch of the main loop (instructions have 8 bytes). */
    method Resolve(pc: nat, npc: nat)
      requires Valid()
      modifies this, table
      ensures Valid() && Value() == Step(old(Value()), Branch(pc, npc != pc + 8))
    {
      branches := branches + 1;
      if npc != pc + 8 {
        misStatic := misStatic + 1;
      }
      var index := Index(pc);
      var prediction := table[index];
      if npc == pc + 8 {
        if prediction == 2 || prediction == 3 {
          misTwoBit := misTwoBit + 1;
        }
        if prediction > 0 {
          table[index] := prediction - 1;
        }
      } else {
        if prediction == 1 || prediction == 0 {
          misTwoBit := misTwoBit + 1;
        }
        if prediction < 3 {
          table[index] := prediction + 1;
        }
      }
    }
  }

  /** The branches of a trace of (PC, NPC) pairs: the next instruction of one that
      is not taken is 8 bytes further on. */
  function BranchesOf(trace: seq<(nat, nat)>): (bs: seq<Branch>)
    ensures |bs| == |trace|
  {
    seq(|trace|, k requires 0 <= k < |trace| => Branch(trace[k].0, trace[k].1 != trace[k].0 + 8))
  }

  /** The main loop over a trace. */
  method Simulate(trace: seq<(nat, nat)>) returns (sim: Simulator)
    ensures sim.Valid() && fresh(sim) && fresh(sim.table)
    ensures sim.branches == |trace| && sim.misStatic == |TakenBranches(BranchesOf(trace))|
    ensures sim.misTwoBit == |Mispredictions(BranchesOf(trace))|
    ensures sim.misTwoBit <= 2 * sim.misStatic && sim.misTwoBit <= 2 * (|trace| - sim.misStatic) + 4096
  {
    sim := new Simulator();
    ghost var bs := BranchesOf(trace);
    for i := 0 to |trace|
      invariant sim.Valid() && fresh(sim) && fresh(sim.table) && sim.Value() == Run(Initial(), bs[..i])
    {
      sim.Resolve(trace[i].0, trace[i].1);
      assert bs[..i + 1] == bs[..i] + [bs[i]];
      RunSnoc(Initial(), bs[..i], bs[i]);
    }
    assert bs[..|trace|] == bs;
    CountsExact(bs);
    Competitive(bs);
  }
}
