/** The return-address stack of the branch predictor (lab3/bpred.c): a ring that
    forgets its oldest entries, and that mis-speculation may corrupt. */
module ReturnStack {
  import opened Pow2
  import opened FlatMemory

  // ---- ring positions ----

  /** The slots next to slot t in a ring of n. */
  function Up(t: nat, n: nat): (u: nat)
    requires t < n
    ensures u < n
  {
    if t + 1 == n then 0 else t + 1
  }

  function Down(t: nat, n: nat): (d: nat)
    requires t < n
    ensures d < n
  {
    if t == 0 then n - 1 else t - 1
  }

  /** The remainders that move the top of stack are the two ring steps. */
  lemma RingSteps(t: nat, n: nat)
    requires t < n
    ensures (t + 1) % n == Up(t, n) && (t + n - 1) % n == Down(t, n)
  {
    DivModUnique(t + 1, n, if t + 1 == n then 1 else 0, Up(t, n));
    DivModUnique(t + n - 1, n, if t == 0 then 0 else 1, Down(t, n));
  }

  /** The slot of an unbounded position, which may be negative: p modulo n. */
  function Slot(p: int, n: nat): (i: nat)
    requires n > 0
    ensures i < n && (0 <= p < n ==> i == p)
    decreases if p < 0 then -p else p
  {
    if p == 0 then 0
    else if p > 0 then Up(Slot(p - 1, n), n)
    else Down(Slot(p + 1, n), n)
  }

  lemma SlotMoves(p: int, n: nat)
    requires n > 0
    ensures Up(Slot(p, n), n) == Slot(p + 1, n) && Down(Slot(p, n), n) == Slot(p - 1, n)
  {
  }

  lemma {:induction false} SlotsUp(p: int, d: nat, n: nat)
    requires d <= n && n > 0
    ensures Slot(p + d, n) == if Slot(p, n) + d < n then Slot(p, n) + d else Slot(p, n) + d - n
  {
    if d > 0 {
      SlotsUp(p, d - 1, n);
      SlotMoves(p + d - 1, n);
    }
  }

  /** Positions less than a full turn apart have different slots; a full turn
      leads back to the same one. */
  lemma SlotsDiffer(p: int, q: int, n: nat)
    requires n > 0
    ensures p < q < p + n ==> Slot(p, n) != Slot(q, n)
    ensures Slot(p + n, n) == Slot(p, n)
  {
    SlotsUp(p, n, n);
    if p < q < p + n {
      SlotsUp(p, q - p, n);
    }
  }

  // ---- the stack and its runs ----

  datatype Ras = Ras(stack: seq<nat>, tos: nat) {
    ghost predicate Valid() { tos < |stack| }
  }

  /** A call looked up at an address, or a return. */
  datatype Event = Call(baddr: nat) | Return

  /** The address of the instruction after a call (instructions have 8 bytes). */
  function Link(baddr: nat): nat {
    Wrap(baddr + 8)
  }

  function Step(s: Ras, e: Event): (s': Ras)
    requires s.Valid()
    ensures s'.Valid() && |s'.stack| == |s.stack|
  {
    var n := |s.stack|;
    match e
    case Call(a) => var t := Up(s.tos, n); Ras(s.stack[t := Link(a)], t)
    case Return => Ras(s.stack, Down(s.tos, n))
  }

  function Run(s: Ras, es: seq<Event>): (s': Ras)
    requires s.Valid()
    ensures s'.Valid() && |s'.stack| == |s.stack|
  {
    if es == [] then s else Step(Run(s, es[..|es| - 1]), es[|es| - 1])
  }

  /** The predicted targets of the returns, in order. */
  function Predictions(s: Ras, es: seq<Event>): seq<nat>
    requires s.Valid()
  {
    if es == [] then []
    else
      var before := Run(s, es[..|es| - 1]);
      Predictions(s, es[..|es| - 1]) + if es[|es| - 1].Return? then [before.stack[before.tos]] else []
  }

  lemma {:induction false} RunAppend(s: Ras, a: seq<Event>, b: seq<Event>)
    requires s.Valid()
    ensures Run(s, a + b) == Run(Run(s, a), b)
    ensures Predictions(s, a + b) == Predictions(s, a) + Predictions(Run(s, a), b)
  {
    if b == [] {
      assert a + b == a;
    } else {
      var n := |b| - 1;
      assert (a + b)[..|a| + n] == a + b[..n];
      RunAppend(s, a, b[..n]);
    }
  }

  lemma {:induction false} RunOne(s: Ras, e: Event)
    requires s.Valid()
    ensures Run(s, [e]) == Step(s, e)
    ensures Predictions(s, [e]) == if e.Return? then [s.stack[s.tos]] else []
  {
    assert [e][..0] == [];
  }

  // ---- what a slot holds after a run ----

  function Height(es: seq<Event>): int {
    if es == [] then 0 else Height(es[..|es| - 1]) + if es[|es| - 1].Call? then 1 else -1
  }

  /** The last address pushed at slot i by a run from position p, or v if none. */
  function Last(es: seq<Event>, p: int, size: nat, i: nat, v: nat): nat
    requires size > 0
  {
    if es == [] then v
    else
      var n := |es| - 1;
      if es[n].Call? && Slot(p + Height(es), size) == i then Link(es[n].baddr) else Last(es[..n], p, size, i, v)
  }

  /** Every slot holds what was pushed there last, and tos follows the height. */
  lemma {:induction false} SlotAfter(s: Ras, p: int, es: seq<Event>, i: nat)
    requires s.Valid() && s.tos == Slot(p, |s.stack|) && i < |s.stack|
    ensures Run(s, es).tos == Slot(p + Height(es), |s.stack|)
    ensures Run(s, es).stack[i] == Last(es, p, |s.stack|, i, s.stack[i])
  {
    if es != [] {
      var n := |es| - 1;
      SlotAfter(s, p, es[..n], i);
      SlotMoves(p + Height(es[..n]), |s.stack|);
    }
  }

  // ---- wrong paths ----

  /** Some push of the run lands on slot i. */
  ghost predicate Pushes(es: seq<Event>, p: int, size: nat, i: nat)
    requires size > 0
  {
    exists n :: 0 <= n < |es| && PushAt(es, p, size, i, n)
  }

  ghost predicate PushAt(es: seq<Event>, p: int, size: nat, i: nat, n: nat)
    requires size > 0 && n < |es|
  {
    es[n].Call? && Slot(p + Height(es[..n + 1]), size) == i
  }

  lemma {:induction false} LastUnlessPushed(es: seq<Event>, p: int, size: nat, i: nat, v: nat, v': nat)
    requires size > 0
    ensures !Pushes(es, p, size, i) ==> Last(es, p, size, i, v) == v
    ensures Pushes(es, p, size, i) ==> Last(es, p, size, i, v) == Last(es, p, size, i, v')
  {
    if es != [] {
      var n := |es| - 1;
      assert es[..n + 1] == es;
      LastUnlessPushed(es[..n], p, size, i, v, v');
      PushesPrefix(es, p, size, i);
    }
  }

  lemma PushesPrefix(es: seq<Event>, p: int, size: nat, i: nat)
    requires size > 0 && es != []
    ensures var n := |es| - 1;
            Pushes(es, p, size, i) <==> PushAt(es, p, size, i, n) || Pushes(es[..n], p, size, i)
  {
    var n := |es| - 1;
    forall m | 0 <= m < n
      ensures PushAt(es, p, size, i, m) <==> PushAt(es[..n], p, size, i, m)
    {
      assert es[..n][m] == es[m] && es[..n][..m + 1] == es[..m + 1];
    }
  }

  function Recover(s: Ras, tos: nat): Ras {
    Ras(s.stack, tos)
  }

  /** Slot i holds v again after a wrong path and a recovery. */
  ghost predicate Restores(s: Ras, wrong: seq<Event>, i: nat, v: nat)
    requires s.Valid() && i < |s.stack|
  {
    var before := Ras(s.stack[i := v], s.tos);
    Recover(Run(before, wrong), s.tos).stack[i] == v
  }

  lemma {:induction false} RestoresLast(s: Ras, wrong: seq<Event>, i: nat, v: nat)
    requires s.Valid() && i < |s.stack|
    ensures Restores(s, wrong, i, v) <==> Last(wrong, s.tos, |s.stack|, i, v) == v
  {
    SlotAfter(Ras(s.stack[i := v], s.tos), s.tos, wrong, i);
  }

  /** A slot is restored whatever it held exactly when the wrong path pushed
      nothing onto it. */
  lemma RecoverExact(s: Ras, wrong: seq<Event>, i: nat)
    requires s.Valid() && i < |s.stack|
    ensures !Pushes(wrong, s.tos, |s.stack|, i) <==> forall v: nat :: Restores(s, wrong, i, v)
  {
    var n := |s.stack|;
    if Pushes(wrong, s.tos, n, i) {
      var c := Last(wrong, s.tos, n, i, 0);
      LastUnlessPushed(wrong, s.tos, n, i, c + 1, 0);
      RestoresLast(s, wrong, i, c + 1);
    } else {
      forall v: nat
        ensures Restores(s, wrong, i, v)
      {
        LastUnlessPushed(wrong, s.tos, n, i, v, 0);
        RestoresLast(s, wrong, i, v);
      }
    }
  }

  /** The entry k places below the top. */
  function FromTop(s: Ras, k: nat): nat
    requires s.Valid() && k < |s.stack|
  {
    s.stack[Slot(s.tos - k, |s.stack|)]
  }

  /** If the wrong path pushed only above the saved top, and by no more than
      size - k, then recovery gives back the k topmost entries. */
  lemma {:induction false} RecoverRestores(s: Ras, wrong: seq<Event>, k: nat, j: nat)
    requires s.Valid() && j < k <= |s.stack|
    requires forall h :: PushesTo(wrong, h) ==> 1 <= h <= |s.stack| - k
    ensures Recover(Run(s, wrong), s.tos).Valid()
    ensures FromTop(Recover(Run(s, wrong), s.tos), j) == FromTop(s, j)
  {
    var size := |s.stack|;
    var i := Slot(s.tos - j, size);
    if Pushes(wrong, s.tos, size, i) {
      var h := HeightOfPush(wrong, s.tos, size, i);
      SlotsDiffer(s.tos - j, s.tos + h, size);
    }
    SlotAfter(s, s.tos, wrong, i);
    LastUnlessPushed(wrong, s.tos, size, i, s.stack[i], 0);
  }

  /** Some push of the run happens at height h above its start. */
  ghost predicate PushesTo(es: seq<Event>, h: int) {
    exists n :: 0 <= n < |es| && PushedTo(es, h, n)
  }

  ghost predicate PushedTo(es: seq<Event>, h: int, n: nat)
    requires n < |es|
  {
    es[n].Call? && Height(es[..n + 1]) == h
  }

  lemma {:induction false} HeightAppend(a: seq<Event>, b: seq<Event>)
    ensures Height(a + b) == Height(a) + Height(b)
  {
    if b == [] {
      assert a + b == a;
    } else {
      var n := |b| - 1;
      assert (a + b)[..|a| + n] == a + b[..n];
      HeightAppend(a, b[..n]);
    }
  }

  lemma PushedLeft(a: seq<Event>, b: seq<Event>, h: int, n: nat)
    requires n < |a|
    ensures PushedTo(a + b, h, n) <==> PushedTo(a, h, n)
  {
    assert (a + b)[..n + 1] == a[..n + 1];
  }

  lemma {:induction false} PushedRight(a: seq<Event>, b: seq<Event>, h: int, n: nat)
    requires n < |b|
    ensures PushedTo(a + b, h, |a| + n) <==> PushedTo(b, h - Height(a), n)
  {
    assert (a + b)[..|a| + n + 1] == a + b[..n + 1];
    HeightAppend(a, b[..n + 1]);
  }

  lemma {:induction false} PushesToAppend(a: seq<Event>, b: seq<Event>, h: int)
    ensures PushesTo(a + b, h) <==> PushesTo(a, h) || PushesTo(b, h - Height(a))
  {
    if PushesTo(a + b, h) {
      var n :| 0 <= n < |a + b| && PushedTo(a + b, h, n);
      if n < |a| {
        PushedLeft(a, b, h, n);
      } else {
        PushedRight(a, b, h, n - |a|);
      }
    } else if PushesTo(a, h) {
      var n :| 0 <= n < |a| && PushedTo(a, h, n);
      PushedLeft(a, b, h, n);
    } else if PushesTo(b, h - Height(a)) {
      var n :| 0 <= n < |b| && PushedTo(b, h - Height(a), n);
      PushedRight(a, b, h, n);
    }
  }

  lemma SlotOfPush(es: seq<Event>, p: int, size: nat, h: int)
    requires size > 0 && PushesTo(es, h)
    ensures Pushes(es, p, size, Slot(p + h, size))
  {
    var n :| 0 <= n < |es| && PushedTo(es, h, n);
    assert PushAt(es, p, size, Slot(p + h, size), n);
  }

  lemma HeightOfPush(es: seq<Event>, p: int, size: nat, i: nat) returns (h: int)
    requires size > 0 && Pushes(es, p, size, i)
    ensures PushesTo(es, h) && Slot(p + h, size) == i
  {
    var n :| 0 <= n < |es| && PushAt(es, p, size, i, n);
    h := Height(es[..n + 1]);
    assert PushedTo(es, h, n);
  }

  // ---- well-nested code ----

  /** A sequence of completed calls: each is a call, what it runs, its return. */
  datatype Body = Done | Calling(baddr: nat, inner: Body, rest: Body)

  function Events(b: Body): seq<Event> {
    match b
    case Done => []
    case Calling(a, inner, rest) => [Call(a)] + Events(inner) + [Return] + Events(rest)
  }

  function Depth(b: Body): nat {
    match b
    case Done => 0
    case Calling(_, inner, rest) => if 1 + Depth(inner) > Depth(rest) then 1 + Depth(inner) else Depth(rest)
  }

  /** The true targets of the returns, in order. */
  function Targets(b: Body): seq<nat> {
    match b
    case Done => []
    case Calling(a, inner, rest) => Targets(inner) + [Wrap(a + 8)] + Targets(rest)
  }

  /** tos comes back, and only slots above it, up to the depth, are written. */
  lemma {:induction false} BodyKeeps(s: Ras, p: int, b: Body, q: int)
    requires s.Valid() && s.tos == Slot(p, |s.stack|)
    ensures Run(s, Events(b)).tos == s.tos
    ensures p + Depth(b) - |s.stack| < q <= p ==>
              Run(s, Events(b)).stack[Slot(q, |s.stack|)] == s.stack[Slot(q, |s.stack|)]
    decreases b
  {
    match b
    case Done =>
    case Calling(a, inner, rest) =>
      var n := |s.stack|;
      var called := Step(s, Call(a));
      var ran := Run(called, Events(inner));
      var back := Step(ran, Return);
      SlotMoves(p, n);
      SlotMoves(p + 1, n);
      BodyKeeps(called, p + 1, inner, q);
      BodyKeeps(back, p, rest, q);
      SlotsDiffer(q, p + 1, n);
      RunBody(s, b);
  }

  lemma {:induction false} RunBody(s: Ras, b: Body)
    requires s.Valid() && b.Calling?
    ensures var called := Step(s, Call(b.baddr));
            var ran := Run(called, Events(b.inner));
            var back := Step(ran, Return);
            && Run(s, Events(b)) == Run(back, Events(b.rest))
            && Predictions(s, Events(b))
               == Predictions(called, Events(b.inner)) + [ran.stack[ran.tos]] + Predictions(back, Events(b.rest))
  {
    var called := Step(s, Call(b.baddr));
    var ran := Run(called, Events(b.inner));
    var c, i, r, t := [Call(b.baddr)], Events(b.inner), [Return], Events(b.rest);
    RunOne(s, Call(b.baddr));
    RunOne(ran, Return);
    RunAppend(s, c, i);
    RunAppend(s, c + i, r);
    RunAppend(s, c + i + r, t);
    assert Predictions(s, c + i) == Predictions(called, i);
  }

  /** Every return of well-nested code is predicted as the address after its
      call when no more than `size` calls are open at once. */
  lemma {:induction false} NestedReturnsPredicted(s: Ras, p: int, b: Body)
    requires s.Valid() && s.tos == Slot(p, |s.stack|) && Depth(b) <= |s.stack|
    ensures Predictions(s, Events(b)) == Targets(b)
    decreases b
  {
    match b
    case Done =>
    case Calling(a, inner, rest) =>
      var n := |s.stack|;
      var called := Step(s, Call(a));
      var ran := Run(called, Events(inner));
      var back := Step(ran, Return);
      SlotMoves(p, n);
      SlotMoves(p + 1, n);
      BodyKeeps(called, p + 1, inner, p + 1);
      NestedReturnsPredicted(called, p + 1, inner);
      NestedReturnsPredicted(back, p, rest);
      RunBody(s, b);
  }

  /** Well-nested code pushes at the heights 1 to its depth, and at no others. */
  lemma {:induction false} BodyPushes(b: Body, h: int)
    ensures Height(Events(b)) == 0
    ensures PushesTo(Events(b), h) <==> 1 <= h <= Depth(b)
  {
    match b
    case Done =>
    case Calling(a, inner, rest) =>
      var c, i, r, t := [Call(a)], Events(inner), [Return], Events(rest);
      BodyPushes(inner, h - 1);
      BodyPushes(rest, h);
      OneEvent(Call(a), h);
      OneEvent(Return, h - 1);
      HeightAppend(c, i);
      HeightAppend(c + i, r);
      HeightAppend(c + i + r, t);
      PushesToAppend(c, i, h);
      PushesToAppend(c + i, r, h);
      PushesToAppend(c + i + r, t, h);
  }

  lemma OneEvent(e: Event, h: int)
    ensures Height([e]) == if e.Call? then 1 else -1
    ensures PushesTo([e], h) <==> e.Call? && h == 1
  {
    assert [e][..0] == [] && [e][..1] == [e];
    if e.Call? && h == 1 {
      assert PushedTo([e], h, 0);
    }
  }

  /** A return finds what its call left on top, whatever that was, exactly when
      the nesting inside the call stayed below the stack size. */
  lemma {:induction false} ReturnPredictedIff(s: Ras, inner: Body)
    requires s.Valid()
    ensures Depth(inner) < |s.stack| <==> forall v: nat :: Restores(s, Events(inner), s.tos, v)
  {
    var n, es := |s.stack|, Events(inner);
    RecoverExact(s, es, s.tos);
    if Depth(inner) >= n {
      BodyPushes(inner, n);
      SlotOfPush(es, s.tos, n, n);
      SlotsDiffer(s.tos, s.tos + n, n);
    } else if Pushes(es, s.tos, n, s.tos) {
      var h := HeightOfPush(es, s.tos, n, s.tos);
      BodyPushes(inner, h);
      SlotsDiffer(s.tos, s.tos + h, n);
    }
  }

  // ---- well-nested code with mispredicted branches ----

  /** Code in which branches may be mispredicted: the lookups of the wrong path
      are followed by a recovery, and the right path goes on behind it. */
  datatype Path =
    | End
    | Through(baddr: nat, inner: Path, rest: Path)
    | Mispredicted(baddr: nat, wrong: seq<Event>, rest: Path)

  function PathRun(s: Ras, b: Path): (s': Ras)
    requires s.Valid()
    ensures s'.Valid() && |s'.stack| == |s.stack|
    decreases b
  {
    match b
    case End => s
    case Through(a, inner, rest) => PathRun(Step(PathRun(Step(s, Call(a)), inner), Return), rest)
    case Mispredicted(_, wrong, rest) => PathRun(Recover(Run(s, wrong), s.tos), rest)
  }

  /** The predictions for the returns of the right path. */
  function PathPredictions(s: Ras, b: Path): seq<nat>
    requires s.Valid()
    decreases b
  {
    match b
    case End => []
    case Through(a, inner, rest) =>
      var called := Step(s, Call(a));
      var ran := PathRun(called, inner);
      PathPredictions(called, inner) + [ran.stack[ran.tos]] + PathPredictions(Step(ran, Return), rest)
    case Mispredicted(_, wrong, rest) => PathPredictions(Recover(Run(s, wrong), s.tos), rest)
  }

  function PathTargets(b: Path): seq<nat> {
    match b
    case End => []
    case Through(a, inner, rest) => PathTargets(inner) + [Wrap(a + 8)] + PathTargets(rest)
    case Mispredicted(_, _, rest) => PathTargets(rest)
  }

  /** At most `size` calls are open at once, of them `open` already; and each wrong
      path pushes only above the top it starts from, and onto none of the slots
      of the calls that are open there. */
  ghost predicate Harmless(b: Path, open: nat, size: nat) {
    match b
    case End => open <= size
    case Through(_, inner, rest) => Harmless(inner, open + 1, size) && Harmless(rest, open, size)
    case Mispredicted(_, wrong, rest) =>
      (forall h :: PushesTo(wrong, h) ==> 1 <= h <= size - open) && Harmless(rest, open, size)
  }

  lemma {:induction false} RecoverKeeps(s: Ras, p: int, wrong: seq<Event>, open: nat, q: int)
    requires s.Valid() && s.tos == Slot(p, |s.stack|) && p - open < q <= p
    requires forall h :: PushesTo(wrong, h) ==> 1 <= h <= |s.stack| - open
    ensures Run(s, wrong).stack[Slot(q, |s.stack|)] == s.stack[Slot(q, |s.stack|)]
  {
    var size := |s.stack|;
    var i := Slot(q, size);
    if Pushes(wrong, p, size, i) {
      var h := HeightOfPush(wrong, p, size, i);
      SlotsDiffer(q, p + h, size);
    }
    SlotAfter(s, p, wrong, i);
    LastUnlessPushed(wrong, p, size, i, s.stack[i], 0);
  }

  /** The top of stack comes back, and the slots of the open calls are kept. */
  lemma {:induction false} PathKeeps(s: Ras, p: int, b: Path, open: nat, q: int)
    requires s.Valid() && s.tos == Slot(p, |s.stack|) && Harmless(b, open, |s.stack|)
    ensures PathRun(s, b).tos == s.tos
    ensures p - open < q <= p ==> PathRun(s, b).stack[Slot(q, |s.stack|)] == s.stack[Slot(q, |s.stack|)]
    decreases b
  {
    match b
    case End =>
    case Through(a, inner, rest) =>
      var called := Step(s, Call(a));
      var ran := PathRun(called, inner);
      SlotMoves(p, |s.stack|);
      SlotMoves(p + 1, |s.stack|);
      PathKeeps(called, p + 1, inner, open + 1, q);
      PathKeeps(Step(ran, Return), p, rest, open, q);
      HarmlessFits(inner, open + 1, |s.stack|);
      SlotsDiffer(q, p + 1, |s.stack|);
    case Mispredicted(_, wrong, rest) =>
      if p - open < q <= p {
        RecoverKeeps(s, p, wrong, open, q);
      }
      PathKeeps(Recover(Run(s, wrong), s.tos), p, rest, open, q);
  }

  lemma {:induction false} HarmlessFits(b: Path, open: nat, size: nat)
    requires Harmless(b, open, size)
    ensures open <= size
  {
    match b
    case End =>
    case Through(_, _, rest) => HarmlessFits(rest, open, size);
    case Mispredicted(_, _, rest) => HarmlessFits(rest, open, size);
  }

  /** Every return of the right path is predicted as the address after its call,
      whatever the harmless wrong paths in between push and pop. */
  lemma {:induction false} ReturnsSurviveWrongPaths(s: Ras, p: int, b: Path, open: nat)
    requires s.Valid() && s.tos == Slot(p, |s.stack|) && Harmless(b, open, |s.stack|)
    ensures PathPredictions(s, b) == PathTargets(b)
    decreases b
  {
    match b
    case End =>
    case Through(a, inner, rest) =>
      var called := Step(s, Call(a));
      var ran := PathRun(called, inner);
      SlotMoves(p, |s.stack|);
      SlotMoves(p + 1, |s.stack|);
      PathKeeps(called, p + 1, inner, open + 1, p + 1);
      ReturnsSurviveWrongPaths(called, p + 1, inner, open + 1);
      ReturnsSurviveWrongPaths(Step(ran, Return), p, rest, open);
    case Mispredicted(_, wrong, rest) => ReturnsSurviveWrongPaths(Recover(Run(s, wrong), s.tos), p, rest, open);
  }

  /** Well-nested code as a path without mispredictions. */
  function PathOf(b: Body): Path {
    match b
    case Done => End
    case Calling(a, inner, rest) => Through(a, PathOf(inner), PathOf(rest))
  }

  /** It is harmless exactly when it is not nested too deeply. */
  lemma {:induction false} NestedIsHarmless(b: Body, open: nat, size: nat)
    ensures Harmless(PathOf(b), open, size) <==> open + Depth(b) <= size
    ensures PathTargets(PathOf(b)) == Targets(b)
  {
    match b
    case Done =>
    case Calling(_, inner, rest) =>
      NestedIsHarmless(inner, open + 1, size);
      NestedIsHarmless(rest, open, size);
  }

  // ---- the stack in place ----

  /** retstack of bpred_t; its size is a power of two or zero. */
  class ReturnAddressStack {
    const size: nat
    const stack: array<nat>
    var tos: int

    ghost predicate Valid()
      reads this, stack
    {
      stack.Length == size && (size > 0 ==> 0 <= tos < size) && (size == 0 ==> tos <= 0)
    }

    ghost function Value(): (s: Ras)
      reads this, stack
      requires Valid() && size > 0
      ensures s.Valid()
    {
      Ras(stack[..], tos)
    }

    constructor (size: nat)
      requires PassesSizeTest(size)
      ensures Valid() && fresh(stack) && this.size == size && tos == size - 1
      ensures forall k :: 0 <= k < size ==> stack[k] == 0
    {
      this.size := size;
      stack := new nat[size](_ => 0);
      tos := size - 1;
    }

    /** The stack part of bpred_lookup: the old top is noted for recovery, a
        return pops its prediction, a call pushes its return address. */
    method Lookup(baddr: nat, isCall: bool, isReturn: bool) returns (used: bool, target: nat, recover: int)
      requires Valid()
      modifies this`tos, stack
      ensures Valid() && (used <==> isReturn && size > 0)
      ensures recover == if size > 0 then old(tos) else 0
      ensures size == 0 ==> tos == old(tos)
      ensures used ==> target == old(stack[tos]) && Value() == Step(old(Value()), Return)
      ensures size > 0 && !isReturn && isCall ==> Value() == Step(old(Value()), Call(baddr))
      ensures size > 0 && !isReturn && !isCall ==> Value() == old(Value())
    {
      used, target := false, 0;
      recover := if size > 0 then tos else 0;
      if size > 0 {
        RingSteps(tos, size);
      }
      if isReturn && size > 0 {
        target := stack[tos];
        tos := (tos + size - 1) % size;
        used := true;
        return;
      }
      if isCall && size > 0 {
        tos := (tos + 1) % size;
        stack[tos] := Wrap(baddr + 8);
      }
    }

    /** bpred_recover. */
    method RecoverTo(recover: int)
      requires Valid() && (size > 0 ==> 0 <= recover < size) && (size == 0 ==> recover == 0)
      modifies this`tos
      ensures Valid() && stack[..] == old(stack[..])
      ensures size > 0 ==> Value() == Recover(old(Value()), recover)
    {
      tos := recover;
    }
  }
}
