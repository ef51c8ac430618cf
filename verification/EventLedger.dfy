/** What becomes of every event ever queued (lab2/eventq.c): over any run of
    queueing, removing, executing and servicing, each event has been performed,
    was removed, was lost by the service loop, or is still pending. */
module EventLedger {
  import opened FlatMemory
  import opened Recency
  import opened EventQueue

  // ---- the events that requests become ----

  function IdAfter(id: nat, n: nat): nat {
    if n == 0 then id else Wrap(IdAfter(id, n - 1) + 1)
  }

  /** Identifiers are handed out in order from `id` on. */
  function Numbered(id: nat, rs: seq<Request>): (es: seq<Event>)
    ensures |es| == |rs|
    decreases |rs|
  {
    if rs == [] then []
    else
      var n := |rs| - 1;
      Numbered(id, rs[..n]) + [Event(rs[n].when, IdAfter(id, n), rs[n].action)]
  }

  /** The events for time t or before. */
  function Early(es: seq<Event>, t: int): multiset<Event> {
    if es == [] then multiset{}
    else
      var n := |es| - 1;
      Early(es[..n], t) + if es[n].when <= t then multiset{es[n]} else multiset{}
  }

  lemma {:induction false} NumberedSnoc(id: nat, rs: seq<Request>, r: Request)
    ensures Numbered(id, rs + [r]) == Numbered(id, rs) + [Event(r.when, IdAfter(id, |rs|), r.action)]
  {
    assert (rs + [r])[..|rs|] == rs;
  }

  lemma {:induction false} EarlySnoc(es: seq<Event>, e: Event, t: int)
    ensures Early(es + [e], t) == if e.when <= t then Early(es, t) + multiset{e} else Early(es, t)
  {
    assert (es + [e])[..|es|] == es;
  }

  lemma Counted(es: seq<Event>, e: Event)
    ensures multiset(es + [e]) == multiset(es) + multiset{e} && multiset([e] + es) == multiset{e} + multiset(es)
  {
  }

  lemma InsertCounts(es: seq<Event>, e: Event)
    ensures multiset(Insert(es, e)) == multiset(es) + multiset{e}
  {
    var k := Place(es, e.when);
    assert es == es[..k] + es[k..];
  }

  lemma Shift<T>(a: multiset<T>, b: multiset<T>, start: multiset<T>, made: multiset<T>, e: multiset<T>)
    requires a + b == start + made
    ensures (a + e) + b == start + (made + e) && a + (b + e) == start + (made + e)
  {
    assert (a + e) + b == (a + b) + e && a + (b + e) == (a + b) + e;
    assert start + (made + e) == (start + made) + e;
  }

  /** One more request of a callback: pending if it is for later, else lost. */
  lemma {:induction false} LaterOneLedger(q: Queue, t: int, front: seq<Request>, r: Request)
    requires AddLater(q, t, front).nextId == IdAfter(q.nextId, |front|)
    ensures var q', e := AddLater(q, t, front), Event(r.when, IdAfter(q.nextId, |front|), r.action);
            && AddLater(q, t, front + [r]).nextId == IdAfter(q.nextId, |front| + 1)
            && AddLater(q, t, front + [r]).pending == if r.when > t then Insert(q'.pending, e) else q'.pending
  {
    assert (front + [r])[..|front|] == front;
  }

  /** A callback run by the service loop: what it queues is pending or lost. */
  lemma {:induction false} LaterLedger(q: Queue, t: int, rs: seq<Request>)
    ensures AddLater(q, t, rs).nextId == IdAfter(q.nextId, |rs|)
    ensures multiset(AddLater(q, t, rs).pending) + Early(Numbered(q.nextId, rs), t)
         == multiset(q.pending) + multiset(Numbered(q.nextId, rs))
    decreases |rs|
  {
    if rs != [] {
      var front, r := rs[..|rs| - 1], rs[|rs| - 1];
      var es, e := Numbered(q.nextId, front), Event(r.when, IdAfter(q.nextId, |front|), r.action);
      assert rs == front + [r];
      LaterLedger(q, t, front);
      LaterOneLedger(q, t, front, r);
      NumberedSnoc(q.nextId, front, r);
      EarlySnoc(es, e, t);
      Counted(es, e);
      InsertCounts(AddLater(q, t, front).pending, e);
      Shift(multiset(AddLater(q, t, front).pending), Early(es, t), multiset(q.pending), multiset(es), multiset{e});
    }
  }

  lemma {:induction false} AllOneLedger(q: Queue, front: seq<Request>, r: Request)
    requires AddAll(q, front).nextId == IdAfter(q.nextId, |front|)
    ensures var e := Event(r.when, IdAfter(q.nextId, |front|), r.action);
            && AddAll(q, front + [r]).nextId == IdAfter(q.nextId, |front| + 1)
            && AddAll(q, front + [r]).pending == Insert(AddAll(q, front).pending, e)
  {
    assert (front + [r])[..|front|] == front;
  }

  lemma Regroup3<T>(a: multiset<T>, b: multiset<T>, c: multiset<T>)
    ensures (a + b) + c == a + (b + c)
  {
  }

  lemma {:induction false} AllIds(q: Queue, rs: seq<Request>)
    ensures AddAll(q, rs).nextId == IdAfter(q.nextId, |rs|)
    decreases |rs|
  {
    if rs != [] {
      AllIds(q, rs[..|rs| - 1]);
    }
  }

  /** A callback run by eventq_execute: all of what it queues is pending. */
  lemma {:induction false} AllLedger(q: Queue, rs: seq<Request>)
    ensures multiset(AddAll(q, rs).pending) == multiset(q.pending) + multiset(Numbered(q.nextId, rs))
    decreases |rs|
  {
    if rs != [] {
      var front, r := rs[..|rs| - 1], rs[|rs| - 1];
      var es, e := Numbered(q.nextId, front), Event(r.when, IdAfter(q.nextId, |front|), r.action);
      assert rs == front + [r];
      AllLedger(q, front);
      AllIds(q, front);
      AllOneLedger(q, front, r);
      NumberedSnoc(q.nextId, front, r);
      Counted(es, e);
      InsertCounts(AddAll(q, front).pending, e);
      Regroup3(multiset(q.pending), multiset(es), multiset{e});
    }
  }

  // ---- one service call ----

  /** The events that callbacks queue while the queue is serviced. */
  ghost function Spawned(q: Queue, now: int): multiset<Event>
    decreases Load(q.pending)
  {
    if Due(q, now) then
      FireLess(q);
      multiset(Numbered(q.nextId, Requests(q.pending[0].action))) + Spawned(Fire(q), now)
    else multiset{}
  }

  /** Those of them that the service loop drops. */
  ghost function Lost(q: Queue, now: int): multiset<Event>
    decreases Load(q.pending)
  {
    if Due(q, now) then
      FireLess(q);
      var e := q.pending[0];
      Early(Numbered(q.nextId, Requests(e.action)), e.when) + Lost(Fire(q), now)
    else multiset{}
  }

  lemma FireLedger(q: Queue)
    requires q.pending != []
    ensures var e := q.pending[0];
            var made := Numbered(q.nextId, Requests(e.action));
            multiset(Fire(q).pending) + multiset{e} + Early(made, e.when) == multiset(q.pending) + multiset(made)
  {
    var e, rest := q.pending[0], q.pending[1..];
    var made := Numbered(q.nextId, Requests(e.action));
    assert q.pending == [e] + rest;
    Counted(rest, e);
    LaterLedger(Queue(rest, q.nextId, Effect(q.world, e.action)), e.when, Requests(e.action));
    Swap(multiset(Fire(q).pending), multiset{e}, Early(made, e.when), multiset(rest), multiset(made));
  }

  lemma Swap<T>(a: multiset<T>, e: multiset<T>, early: multiset<T>, rest: multiset<T>, made: multiset<T>)
    requires a + early == rest + made
    ensures a + e + early == (e + rest) + made
  {
    assert a + e + early == e + (a + early) && (e + rest) + made == e + (rest + made);
  }

  lemma Balance<T>(e: multiset<T>, done: multiset<T>, left: multiset<T>, mid: multiset<T>, start: multiset<T>,
                   made: multiset<T>, later: multiset<T>, early: multiset<T>, lost: multiset<T>)
    requires done + left + lost == mid + later && mid + e + early == start + made
    ensures (e + done) + left + (early + lost) == start + (made + later)
  {
    assert (e + done) + left + (early + lost) == (done + left + lost) + (e + early);
    assert (mid + later) + (e + early) == (mid + e + early) + later;
  }

  /** Servicing neither invents nor repeats events: the events performed, pending
      and lost are those pending before and those queued by callbacks. */
  lemma {:induction false} ServiceLedger(q: Queue, now: int)
    ensures multiset(Performed(q, now)) + multiset(Service(q, now).pending) + Lost(q, now)
         == multiset(q.pending) + Spawned(q, now)
    decreases Load(q.pending)
  {
    if Due(q, now) {
      FireLess(q);
      FireLedger(q);
      ServiceLedger(Fire(q), now);
      var e, ps := q.pending[0], Performed(Fire(q), now);
      var made := Numbered(q.nextId, Requests(e.action));
      Counted(ps, e);
      Balance(multiset{e}, multiset(ps), multiset(Service(Fire(q), now).pending), multiset(Fire(q).pending),
              multiset(q.pending), multiset(made), Spawned(Fire(q), now), Early(made, e.when), Lost(Fire(q), now));
    }
  }

  // ---- when nothing is lost ----

  /** Every callback, also those queued by callbacks, queues only for later than itself. */
  ghost predicate Forward(when: int, a: Action)
    decreases a
  {
    match a
    case Callback(queued) => forall r :: r in queued ==> r.when > when && Forward(r.when, r.action)
    case _ => true
  }

  ghost predicate AllForward(es: seq<Event>) {
    forall e :: e in es ==> Forward(e.when, e.action)
  }

  lemma {:induction false} LaterForward(q: Queue, t: int, rs: seq<Request>)
    requires AllForward(q.pending) && forall r :: r in rs ==> Forward(r.when, r.action)
    ensures AllForward(AddLater(q, t, rs).pending)
    decreases |rs|
  {
    if rs != [] {
      var n := |rs| - 1;
      var q' := AddLater(q, t, rs[..n]);
      assert forall r :: r in rs[..n] ==> r in rs;
      assert rs[n] in rs;
      LaterForward(q, t, rs[..n]);
      InsertMembers(q'.pending, Event(rs[n].when, q'.nextId, rs[n].action));
    }
  }

  lemma {:induction false} NoneEarly(id: nat, rs: seq<Request>, t: int)
    requires forall r :: r in rs ==> r.when > t
    ensures Early(Numbered(id, rs), t) == multiset{}
    decreases |rs|
  {
    if rs != [] {
      var n := |rs| - 1;
      assert rs == rs[..n] + [rs[n]] && rs[n] in rs && forall r :: r in rs[..n] ==> r in rs;
      NoneEarly(id, rs[..n], t);
      NumberedSnoc(id, rs[..n], rs[n]);
      EarlySnoc(Numbered(id, rs[..n]), Event(rs[n].when, IdAfter(id, n), rs[n].action), t);
    }
  }

  lemma {:induction false} NothingLost(q: Queue, now: int)
    requires AllForward(q.pending)
    ensures Lost(q, now) == multiset{}
    decreases Load(q.pending)
  {
    if Due(q, now) {
      FireLess(q);
      var e := q.pending[0];
      assert e in q.pending && q.pending == [e] + q.pending[1..];
      NoneEarly(q.nextId, Requests(e.action), e.when);
      LaterForward(Queue(q.pending[1..], q.nextId, Effect(q.world, e.action)), e.when, Requests(e.action));
      NothingLost(Fire(q), now);
    }
  }

  /** When callbacks queue only for later, nothing is lost: what was queued, also
      by callbacks, has been performed or is pending, exactly once. */
  lemma {:induction false} ServiceConserves(q: Queue, now: int)
    requires AllForward(q.pending)
    ensures multiset(Performed(q, now)) + multiset(Service(q, now).pending) == multiset(q.pending) + Spawned(q, now)
  {
    NothingLost(q, now);
    ServiceLedger(q, now);
  }

  // ---- runs ----

  /** A call of the event queue. */
  datatype Call = Queueing(r: Request) | Removing(id: nat) | Executing(id: nat) | Servicing(now: int)

  /** The queue, all events ever queued, and where they went. */
  datatype Ledger = Ledger(queue: Queue, made: multiset<Event>, performed: multiset<Event>, removed: multiset<Event>,
                           lost: multiset<Event>)

  ghost function Execute(l: Ledger, k: nat): Ledger
    requires k < |l.queue.pending|
  {
    var e := l.queue.pending[k];
    var rs := Requests(e.action);
    var q := Queue(RemoveAt(l.queue.pending, k), l.queue.nextId, Effect(l.queue.world, e.action));
    l.(queue := AddAll(q, rs), made := l.made + multiset(Numbered(q.nextId, rs)),
       performed := l.performed + multiset{e})
  }

  ghost function Step(l: Ledger, c: Call): Ledger {
    var q := l.queue;
    match c
    case Queueing(r) => l.(queue := Add(q, r), made := l.made + multiset{Event(r.when, q.nextId, r.action)})
    case Removing(id) =>
      var k := FindId(q.pending, id);
      if k == |q.pending| then l
      else l.(queue := q.(pending := RemoveAt(q.pending, k)), removed := l.removed + multiset{q.pending[k]})
    case Executing(id) =>
      var k := FindId(q.pending, id);
      if k == |q.pending| then l else Execute(l, k)
    case Servicing(now) =>
      l.(queue := Service(q, now), made := l.made + Spawned(q, now),
         performed := l.performed + multiset(Performed(q, now)), lost := l.lost + Lost(q, now))
  }

  ghost function Account(w: World, calls: seq<Call>): Ledger {
    if calls == [] then Ledger(Queue([], 1, w), multiset{}, multiset{}, multiset{}, multiset{})
    else Step(Account(w, calls[..|calls| - 1]), calls[|calls| - 1])
  }

  ghost predicate Balanced(l: Ledger) {
    l.performed + l.removed + l.lost + multiset(l.queue.pending) == l.made
  }

  lemma RemoveCounts(es: seq<Event>, k: nat)
    requires k < |es|
    ensures multiset(RemoveAt(es, k)) + multiset{es[k]} == multiset(es)
  {
    assert es == es[..k] + [es[k]] + es[k + 1..];
  }

  /** Events made, and where each amount goes. */
  lemma Moved<T>(performed: multiset<T>, removed: multiset<T>, lost: multiset<T>, pending: multiset<T>,
                 made: multiset<T>,
                 p: multiset<T>, r: multiset<T>, l: multiset<T>, m: multiset<T>, pending': multiset<T>)
    requires performed + removed + lost + pending == made && p + r + l + pending' == pending + m
    ensures (performed + p) + (removed + r) + (lost + l) + pending' == made + m
  {
    var gone := performed + removed + lost;
    assert (performed + p) + (removed + r) + (lost + l) + pending' == gone + (p + r + l + pending');
    assert gone + (pending + m) == (gone + pending) + m;
  }

  lemma ExecuteBalanced(l: Ledger, k: nat)
    requires Balanced(l) && Sorted(l.queue.pending) && k < |l.queue.pending|
    ensures Balanced(Execute(l, k)) && Sorted(Execute(l, k).queue.pending)
  {
    var q, e := l.queue, l.queue.pending[k];
    var rs, q' := Requests(e.action), Queue(RemoveAt(q.pending, k), q.nextId, Effect(q.world, e.action));
    RemoveCounts(q.pending, k);
    RemoveSorted(q.pending, k);
    AllLedger(q', rs);
    AddAllSorted(q', rs);
    Moved(l.performed, l.removed, l.lost, multiset(q.pending), l.made,
          multiset{e}, multiset{}, multiset{}, multiset(Numbered(q.nextId, rs)), multiset(AddAll(q', rs).pending));
  }

  lemma RemoveBalanced(l: Ledger, k: nat)
    requires Balanced(l) && Sorted(l.queue.pending) && k < |l.queue.pending|
    ensures var rest := RemoveAt(l.queue.pending, k);
            l.performed + (l.removed + multiset{l.queue.pending[k]}) + l.lost + multiset(rest) == l.made && Sorted(rest)
  {
    var q := l.queue;
    RemoveCounts(q.pending, k);
    RemoveSorted(q.pending, k);
    Moved(l.performed, l.removed, l.lost, multiset(q.pending), l.made,
          multiset{}, multiset{q.pending[k]}, multiset{}, multiset{}, multiset(RemoveAt(q.pending, k)));
  }

  lemma AddBalanced(l: Ledger, e: Event)
    requires Balanced(l) && Sorted(l.queue.pending)
    ensures var all := Insert(l.queue.pending, e);
            l.performed + l.removed + l.lost + multiset(all) == l.made + multiset{e} && Sorted(all)
  {
    InsertSorted(l.queue.pending, e);
    Moved(l.performed, l.removed, l.lost, multiset(l.queue.pending), l.made,
          multiset{}, multiset{}, multiset{}, multiset{e}, multiset(Insert(l.queue.pending, e)));
  }

  lemma ServiceBalanced(l: Ledger, now: int)
    requires Balanced(l) && Sorted(l.queue.pending)
    ensures Balanced(Step(l, Servicing(now))) && Sorted(Step(l, Servicing(now)).queue.pending)
  {
    var q := l.queue;
    ServiceLedger(q, now);
    ServiceInOrder(q, now);
    Moved(l.performed, l.removed, l.lost, multiset(q.pending), l.made,
          multiset(Performed(q, now)), multiset{}, Lost(q, now), Spawned(q, now), multiset(Service(q, now).pending));
  }

  lemma StepBalanced(l: Ledger, c: Call)
    requires Balanced(l) && Sorted(l.queue.pending)
    ensures Balanced(Step(l, c)) && Sorted(Step(l, c).queue.pending)
  {
    var q := l.queue;
    match c
    case Queueing(r) => AddBalanced(l, Event(r.when, q.nextId, r.action));
    case Removing(id) =>
      if FindId(q.pending, id) < |q.pending| {
        RemoveBalanced(l, FindId(q.pending, id));
      }
    case Executing(id) =>
      if FindId(q.pending, id) < |q.pending| {
        ExecuteBalanced(l, FindId(q.pending, id));
      }
    case Servicing(now) => ServiceBalanced(l, now);
  }

  /** After any run every event that was ever queued, by a call or by a callback,
      is accounted for exactly once: performed, removed, lost or pending. */
  lemma {:induction false} EveryEventOnce(w: World, calls: seq<Call>)
    ensures Balanced(Account(w, calls)) && Sorted(Account(w, calls).queue.pending)
  {
    if calls != [] {
      EveryEventOnce(w, calls[..|calls| - 1]);
      StepBalanced(Account(w, calls[..|calls| - 1]), calls[|calls| - 1]);
    }
  }

  // ---- identifiers ----

  /** The events have different identifiers, from `lo` on and below `hi`. */
  ghost predicate Identified(m: multiset<Event>, lo: nat, hi: nat) {
    && (forall e :: e in m ==> lo <= e.id < hi && m[e] == 1)
    && forall e, f :: e in m && f in m && e.id == f.id ==> e == f
  }

  lemma IdentifiedAppend(a: multiset<Event>, b: multiset<Event>, lo: nat, mid: nat, hi: nat)
    requires lo <= mid <= hi && Identified(a, lo, mid) && Identified(b, mid, hi)
    ensures Identified(a + b, lo, hi)
  {
    assert forall e :: e in a + b ==> e in a || e in b;
  }

  lemma IdentifiedOne(e: Event)
    ensures Identified(multiset{e}, e.id, e.id + 1)
  {
  }

  lemma {:induction false} NoWrap(id: nat, n: nat)
    requires id + n < SPACE
    ensures IdAfter(id, n) == id + n
  {
    if n > 0 {
      NoWrap(id, n - 1);
    }
  }

  lemma {:induction false} NumberedIds(id: nat, rs: seq<Request>)
    requires id + |rs| < SPACE
    ensures |multiset(Numbered(id, rs))| == |rs|
    ensures Identified(multiset(Numbered(id, rs)), id, id + |rs|)
  {
    if rs != [] {
      var front, r := rs[..|rs| - 1], rs[|rs| - 1];
      var es, e := Numbered(id, front), Event(r.when, id + |front|, r.action);
      assert rs == front + [r];
      NumberedIds(id, front);
      NoWrap(id, |front|);
      NumberedSnoc(id, front, r);
      Counted(es, e);
      IdentifiedOne(e);
      IdentifiedAppend(multiset(es), multiset{e}, id, id + |front|, id + |rs|);
    }
  }

  lemma {:induction false} SpawnedIds(q: Queue, now: int)
    requires q.nextId + |Spawned(q, now)| < SPACE
    ensures Service(q, now).nextId == q.nextId + |Spawned(q, now)|
    ensures Identified(Spawned(q, now), q.nextId, q.nextId + |Spawned(q, now)|)
    decreases Load(q.pending)
  {
    if Due(q, now) {
      FireLess(q);
      var e := q.pending[0];
      var rs := Requests(e.action);
      var made, later := multiset(Numbered(q.nextId, rs)), Spawned(Fire(q), now);
      assert Spawned(q, now) == made + later && |made| == |rs|;
      NumberedIds(q.nextId, rs);
      NoWrap(q.nextId, |rs|);
      LaterLedger(Queue(q.pending[1..], q.nextId, Effect(q.world, e.action)), e.when, rs);
      SpawnedIds(Fire(q), now);
      IdentifiedAppend(made, later, q.nextId, q.nextId + |rs|, q.nextId + |rs| + |later|);
    }
  }

  /** The identifiers handed out so far are 1, 2, and so on. */
  ghost predicate Counting(l: Ledger) {
    l.queue.nextId == |l.made| + 1 && Identified(l.made, 1, |l.made| + 1)
  }

  lemma MadeMore(l: Ledger, more: multiset<Event>, l': Ledger)
    requires Counting(l) && l'.made == l.made + more && l'.queue.nextId == l.queue.nextId + |more|
    requires Identified(more, l.queue.nextId, l'.queue.nextId)
    ensures Counting(l')
  {
    IdentifiedAppend(l.made, more, 1, l.queue.nextId, l'.queue.nextId);
  }

  lemma ExecuteCounting(l: Ledger, k: nat)
    requires Counting(l) && k < |l.queue.pending| && |Execute(l, k).made| + 1 < SPACE
    ensures Counting(Execute(l, k))
  {
    var q, e := l.queue, l.queue.pending[k];
    var rs := Requests(e.action);
    assert |multiset(Numbered(q.nextId, rs))| == |rs|;
    NumberedIds(q.nextId, rs);
    NoWrap(q.nextId, |rs|);
    AllIds(Queue(RemoveAt(q.pending, k), q.nextId, Effect(q.world, e.action)), rs);
    MadeMore(l, multiset(Numbered(q.nextId, rs)), Execute(l, k));
  }

  lemma QueueCounting(l: Ledger, r: Request)
    requires Counting(l) && |Step(l, Queueing(r)).made| + 1 < SPACE
    ensures Counting(Step(l, Queueing(r)))
  {
    IdentifiedOne(Event(r.when, l.queue.nextId, r.action));
    MadeMore(l, multiset{Event(r.when, l.queue.nextId, r.action)}, Step(l, Queueing(r)));
  }

  lemma ServiceCounting(l: Ledger, now: int)
    requires Counting(l) && |Step(l, Servicing(now)).made| + 1 < SPACE
    ensures Counting(Step(l, Servicing(now)))
  {
    SpawnedIds(l.queue, now);
    MadeMore(l, Spawned(l.queue, now), Step(l, Servicing(now)));
  }

  lemma StepCounting(l: Ledger, c: Call)
    requires Counting(l) && |Step(l, c).made| + 1 < SPACE
    ensures Counting(Step(l, c))
  {
    match c
    case Queueing(r) => QueueCounting(l, r);
    case Removing(id) =>
    case Executing(id) =>
      if FindId(l.queue.pending, id) < |l.queue.pending| {
        ExecuteCounting(l, FindId(l.queue.pending, id));
      }
    case Servicing(now) => ServiceCounting(l, now);
  }

  lemma MadeGrows(l: Ledger, c: Call)
    ensures |l.made| <= |Step(l, c).made|
  {
  }

  /** As long as the identifiers have not wrapped, no two events ever queued are
      the same, so the four places of EveryEventOnce are exclusive. */
  lemma {:induction false} AllDifferent(w: World, calls: seq<Call>)
    requires |Account(w, calls).made| + 1 < SPACE
    ensures Counting(Account(w, calls))
  {
    if calls != [] {
      var l, c := Account(w, calls[..|calls| - 1]), calls[|calls| - 1];
      MadeGrows(l, c);
      AllDifferent(w, calls[..|calls| - 1]);
      StepCounting(l, c);
    }
  }

  // ---- the queue in place ----

  /** One call of the real queue. */
  method Dispatch(q: EventQ, c: Call, ghost l: Ledger)
    requires q.Valid() && q.State() == l.queue
    modifies q
    ensures q.Valid() && q.State() == Step(l, c).queue
  {
    match c
    case Queueing(r) => { ghost var x := q.QueueEvent(r, 0); }
    case Removing(id) => { var found := q.RemoveEvent(id); }
    case Executing(id) => { var found := q.ExecuteEvent(id); }
    case Servicing(now) => { ghost var performed := q.ServiceEvents(now); }
  }

  /** Any calls of a fresh queue: it ends with the pending events of the ledger. */
  method RunCalls(world: World, calls: seq<Call>) returns (q: EventQ)
    ensures fresh(q) && q.Valid() && q.State() == Account(world, calls).queue
    ensures Balanced(Account(world, calls)) && multiset(q.queue) <= Account(world, calls).made
  {
    q := new EventQ(world);
    for i := 0 to |calls|
      invariant fresh(q) && q.Valid() && q.State() == Account(world, calls[..i]).queue
    {
      assert calls[..i + 1][..i] == calls[..i];
      Dispatch(q, calls[i], Account(world, calls[..i]));
    }
    assert calls[..|calls|] == calls;
    EveryEventOnce(world, calls);
  }
}
