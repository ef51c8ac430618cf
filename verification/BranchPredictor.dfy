/** The whole branch predictor (lab3/bpred.c): directions, targets and return
    addresses behind lookup, recover and update. */
module BranchPredictor {
  import opened Pow2
  import opened FlatMemory
  import opened Options
  import D = Directions
  import R = ReturnStack
  import B = BranchTargets

  /** The opcode flags that matter: F_CTRL, F_UNCOND and MD_IS_INDIR. */
  datatype Op = Op(ctrl: bool, uncond: bool, indir: bool)

  /** What lookup hands over to update. */
  datatype Record = Record(ras: bool, dir: D.DirUpdate)

  class Predictor {
    const kind: D.Kind
    const dir: D.DirPredictor
    const ras: R.ReturnAddressStack
    const btb: B.Btb

    ghost predicate Valid()
      reads this, dir, ras, ras.stack, btb
    {
      dir.Valid() && ras.Valid() && btb.Valid() && dir.kind == kind
    }

    predicate Stateless() {
      kind == D.AlwaysTaken || kind == D.NeverTaken
    }

    /** bpred_create; a stateless predictor never uses its buffers. */
    constructor (kind: D.Kind, bimodSize: nat, l1size: nat, l2size: nat, metaSize: nat, width: nat, xor: bool,
                 sets: nat, assoc: nat, retstackSize: nat)
      requires IsPow2(bimodSize) && IsPow2(l1size) && IsPow2(l2size) && IsPow2(metaSize) && 1 <= width <= 30
      requires IsPow2(sets) && IsPow2(assoc) && PassesSizeTest(retstackSize)
      ensures Valid() && this.kind == kind && fresh(dir) && fresh(ras) && fresh(ras.stack) && fresh(btb)
      ensures dir.log == [] && btb.history == seq(btb.sets, _ => [])
    {
      this.kind := kind;
      dir := new D.DirPredictor(kind, bimodSize, l1size, l2size, metaSize, width, xor);
      ras := new R.ReturnAddressStack(retstackSize);
      btb := new B.Btb(sets, assoc);
    }

    /** The entry of a branch in the BTB: what the updates of its set left there. */
    ghost function Entries(baddr: nat): (es: seq<B.Entry>)
      requires Valid()
      reads this, dir, ras, ras.stack, btb
      ensures |es| == btb.assoc
    {
      B.RunSet(btb.assoc, btb.history[B.SetOf(baddr, btb.sets)])
    }

    /** The end of bpred_lookup: the BTB answer and the direction together. */
    method FetchAddress(baddr: nat, uncond: bool, taken: bool) returns (target: nat)
      requires Valid()
      ensures !uncond && !taken ==> target == 0
      ensures uncond || taken ==>
                var k := B.Find(Entries(baddr), baddr);
                target == if k == btb.assoc then 1 else Entries(baddr)[k].target
    {
      var hit, t := btb.Lookup(baddr);
      if uncond {
        target := if hit then t else 1;
      } else {
        target := if !taken then 0 else if hit then t else 1;
      }
    }

    /** bpred_lookup. */
    method Lookup(baddr: nat, btarget: nat, op: Op, isCall: bool, isReturn: bool)
      returns (target: nat, rec: Record, recover: int)
      requires Valid()
      modifies ras, ras.stack
      ensures Valid()
      ensures !op.ctrl || Stateless() || ras.size == 0 || !(isCall || isReturn) ==>
                ras.tos == old(ras.tos) && ras.stack[..] == old(ras.stack[..])
      ensures op.ctrl && !Stateless() && ras.size > 0 ==>
                && recover == old(ras.tos)
                && (isReturn ==> ras.Value() == R.Step(old(ras.Value()), R.Return))
                && (!isReturn && isCall ==> ras.Value() == R.Step(old(ras.Value()), R.Call(baddr)))
      ensures D.Issued(dir.tables, rec.dir)
      ensures op.ctrl && !op.uncond ==> (rec.dir.pdir1.Some? <==> !Stateless())
      ensures rec.ras <==> op.ctrl && !Stateless() && ras.size > 0 && isReturn
      ensures !op.ctrl ==> target == 0
      ensures op.ctrl && kind == D.AlwaysTaken ==> target == btarget
      ensures op.ctrl && kind == D.NeverTaken ==> target == if op.uncond then btarget else Wrap(baddr + 8)
      ensures rec.ras ==> target == old(ras.stack[ras.tos])
      ensures op.ctrl && !Stateless() && !rec.ras && !op.uncond && dir.tables.Get(rec.dir.pdir1.value) < 2 ==>
                target == 0
      ensures op.ctrl && !Stateless() && !rec.ras && (op.uncond || dir.tables.Get(rec.dir.pdir1.value) >= 2) ==>
                var k := B.Find(Entries(baddr), baddr);
                target == if k == btb.assoc then 1 else Entries(baddr)[k].target
      ensures op.ctrl && !op.uncond && kind == D.TwoBit ==>
                rec.dir == D.NO_UPDATE.(pdir1 := Some(dir.BimodAt(baddr)))
      ensures !op.ctrl || op.uncond ==> rec.dir == D.NO_UPDATE
    {
      target, rec, recover := 0, Record(false, D.NO_UPDATE), 0;
      if !op.ctrl {
        return;
      }
      if Stateless() {
        target := if kind == D.AlwaysTaken || op.uncond then btarget else Wrap(baddr + 8);
        return;
      }
      if !op.uncond {
        var u := dir.Lookup(baddr);
        rec := rec.(dir := u);
      }
      var used, popped;
      used, popped, recover := ras.Lookup(baddr, isCall, isReturn);
      if used {
        target, rec := popped, rec.(ras := true);
        return;
      }
      target := FetchAddress(baddr, op.uncond, !op.uncond && D.Taken(dir.tables.Get(rec.dir.pdir1.value)));
    }

    /** bpred_recover. */
    method Recover(recover: int)
      requires Valid() && (if ras.size > 0 then 0 <= recover < ras.size else recover == 0)
      modifies ras
      ensures Valid() && ras.stack[..] == old(ras.stack[..])
      ensures ras.size > 0 ==> ras.Value() == R.Recover(old(ras.Value()), recover)
    {
      ras.RecoverTo(recover);
    }

    /** The branches that update does something for. */
    predicate Active(op: Op, rec: Record) {
      op.ctrl && !(op.indir && rec.ras) && !Stateless()
    }

    /** How many different branches the set of this address has seen taken. */
    ghost function Branches(history: seq<seq<B.Taken>>, baddr: nat): nat
      requires btb.sets > 0 && |history| == btb.sets
    {
      |B.Recent(history[B.SetOf(baddr, btb.sets)])|
    }

    /** bpred_update without the statistics. It stops when the BTB scan's assertion fails. */
    method Update(baddr: nat, btarget: nat, taken: bool, correct: bool, op: Op, rec: Record) returns (fired: bool)
      requires Valid() && D.Issued(dir.tables, rec.dir)
      modifies dir, btb
      ensures Valid()
      ensures fired <==> Active(op, rec) && taken && baddr == 0 && Branches(old(btb.history), 0) + 2 <= btb.assoc
      ensures dir.log == if Active(op, rec) && !op.uncond && kind.HasTwoLev()
                         then old(dir.log) + [D.Outcome(baddr, taken)] else old(dir.log)
      ensures !Active(op, rec) || fired ==> dir.tables == old(dir.tables)
      ensures Active(op, rec) && !fired ==>
                && D.SameSizes(old(dir.tables), dir.tables)
                && forall c :: dir.tables.Has(c) ==>
                     dir.tables.Get(c) == D.NextCounter(old(dir.tables), taken, rec.dir, c)
      ensures btb.history == if Active(op, rec) && taken && !fired then
                               var s := B.SetOf(baddr, btb.sets);
                               old(btb.history)[s := old(btb.history)[s] + [B.Taken(baddr, btarget, correct)]]
                             else old(btb.history)
    {
      fired := false;
      if !op.ctrl || (op.indir && rec.ras) || Stateless() {
        return;
      }
      if !op.uncond && kind.HasTwoLev() {
        dir.UpdateHistory(baddr, taken);
      }
      if taken {
        fired := btb.Update(B.Taken(baddr, btarget, correct));
        if fired {
          return;
        }
      }
      dir.UpdateCounters(taken, rec.dir);
    }
  }

  /** Look up calls and returns, one after the other. */
  method RunEvents(p: Predictor, es: seq<R.Event>)
    requires p.Valid() && !p.Stateless() && p.ras.size > 0
    modifies p.ras, p.ras.stack
    ensures p.Valid() && p.ras.Value() == R.Run(old(p.ras.Value()), es)
  {
    ghost var s := p.ras.Value();
    for i := 0 to |es|
      invariant p.Valid() && p.ras.Value() == R.Run(s, es[..i])
    {
      assert es[..i + 1][..i] == es[..i];
      var target := LookupOne(p, es[i]);
    }
    assert es[..|es|] == es;
  }

  /** Look up one call or return. */
  method LookupOne(p: Predictor, e: R.Event) returns (target: nat)
    requires p.Valid() && !p.Stateless() && p.ras.size > 0
    modifies p.ras, p.ras.stack
    ensures p.Valid() && p.ras.Value() == R.Step(old(p.ras.Value()), e)
    ensures e.Return? ==> target == old(p.ras.stack[p.ras.tos])
  {
    var rec, recover;
    target, rec, recover := p.Lookup(if e.Call? then e.baddr else 0, 0, Op(true, true, e.Return?), e.Call?, e.Return?);
  }

  /** Follow a path: look up its calls and returns; look up a mispredicted branch,
      then the wrong path, and recover with what the branch reported. */
  method FollowPath(p: Predictor, b: R.Path) returns (predictions: seq<nat>)
    requires p.Valid() && !p.Stateless() && p.ras.size > 0
    modifies p.ras, p.ras.stack
    ensures p.Valid() && p.ras.Value() == R.PathRun(old(p.ras.Value()), b)
    ensures predictions == R.PathPredictions(old(p.ras.Value()), b)
    decreases b
  {
    match b {
      case End => predictions := [];
      case Through(a, inner, rest) =>
        var target := LookupOne(p, R.Call(a));
        predictions := FollowPath(p, inner);
        target := LookupOne(p, R.Return);
        var more := FollowPath(p, rest);
        predictions := predictions + [target] + more;
      case Mispredicted(a, wrong, rest) =>
        var target, rec, recover := p.Lookup(a, 0, Op(true, false, false), false, false);
        RunEvents(p, wrong);
        p.Recover(recover);
        predictions := FollowPath(p, rest);
    }
  }

  /** Well-nested code, none deeper than the stack, with harmless wrong paths: every
      return is predicted at the address after its call. */
  method RunCode(p: Predictor, code: R.Path) returns (predictions: seq<nat>)
    requires p.Valid() && !p.Stateless() && p.ras.size > 0 && R.Harmless(code, 0, p.ras.size)
    modifies p.ras, p.ras.stack
    ensures p.Valid() && predictions == R.PathTargets(code) && p.ras.tos == old(p.ras.tos)
  {
    R.ReturnsSurviveWrongPaths(p.ras.Value(), p.ras.tos, code, 0);
    R.PathKeeps(p.ras.Value(), p.ras.tos, code, 0, p.ras.tos);
    predictions := FollowPath(p, code);
  }
}
