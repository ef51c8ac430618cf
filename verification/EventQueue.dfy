/** The time-ordered event queue (lab2/eventq.c): linked pending and free lists,
    and what servicing them performs. */
module EventQueue {
  import opened Recency
  import opened Links
  import opened HashChains
  import opened FlatMemory

  // ---- events and their effects ----

  /** A callback is what it queues when it runs; it queues in order. */
  datatype Action =
    | SetBit(bit: nat)
    | ClearBit(bit: nat)
    | SetFlag(cell: nat, value: int)
    | AddOp(cell: nat, addend: int)
    | Callback(queued: seq<Request>)

  datatype Request = Request(when: int, action: Action)

  datatype Event = Event(when: int, id: nat, action: Action)

  /** The bits that are set, and integer variables, zero where not mentioned. */
  datatype World = World(bits: set<nat>, cells: map<nat, int>) {
    function Cell(i: nat): int { if i in cells then cells[i] else 0 }
  }

  function Effect(w: World, a: Action): World {
    match a
    case SetBit(i) => w.(bits := w.bits + {i})
    case ClearBit(i) => w.(bits := w.bits - {i})
    case SetFlag(i, v) => w.(cells := w.cells[i := v])
    case AddOp(i, v) => w.(cells := w.cells[i := w.Cell(i) + v])
    case Callback(_) => w
  }

  function Requests(a: Action): seq<Request> {
    if a.Callback? then a.queued else []
  }

  // ---- the queue as a sequence ----

  ghost predicate Sorted(es: seq<Event>) {
    forall i, j :: 0 <= i < j < |es| ==> es[i].when <= es[j].when
  }

  /** Where an event goes: before the first one that is not earlier. */
  function Place(es: seq<Event>, when: int): (k: nat)
    ensures k <= |es| && (forall j :: 0 <= j < k ==> es[j].when < when) && (k < |es| ==> es[k].when >= when)
  {
    if es == [] || es[0].when >= when then 0 else 1 + Place(es[1..], when)
  }

  function Insert(es: seq<Event>, e: Event): (r: seq<Event>)
    ensures |r| == |es| + 1
  {
    PutAt(es, Place(es, e.when), e)
  }

  function PutAt(es: seq<Event>, k: nat, e: Event): (r: seq<Event>)
    requires k <= |es|
    ensures |r| == |es| + 1
  {
    es[..k] + [e] + es[k..]
  }

  lemma InsertSorted(es: seq<Event>, e: Event)
    requires Sorted(es)
    ensures Sorted(Insert(es, e)) && multiset(Insert(es, e)) == multiset(es) + multiset{e}
  {
    var k := Place(es, e.when);
    assert es == es[..k] + es[k..];
    forall j | k <= j < |es|
      ensures es[j].when >= e.when
    {
      assert es[k].when <= es[j].when || j == k;
    }
  }

  datatype Queue = Queue(pending: seq<Event>, nextId: nat, world: World)

  /** next_ID is a 32-bit counter. */
  function Add(q: Queue, r: Request): Queue {
    Queue(Insert(q.pending, Event(r.when, q.nextId, r.action)), Wrap(q.nextId + 1), q.world)
  }

  /** The requests of a callback run at time t that are not lost: those for later. */
  function AddLater(q: Queue, t: int, rs: seq<Request>): (q': Queue)
    ensures q'.world == q.world
    decreases |rs|
  {
    if rs == [] then q
    else
      var n := |rs| - 1;
      var q' := AddLater(q, t, rs[..n]);
      if rs[n].when > t then Add(q', rs[n]) else q'.(nextId := Wrap(q'.nextId + 1))
  }

  /** Perform the first pending event. */
  function Fire(q: Queue): (q': Queue)
    requires q.pending != []
  {
    var e := q.pending[0];
    AddLater(Queue(q.pending[1..], q.nextId, Effect(q.world, e.action)), e.when, Requests(e.action))
  }

  predicate Due(q: Queue, now: int) {
    q.pending != [] && q.pending[0].when <= now
  }

  // ---- termination: every event costs more than all it queues ----

  function Cost(a: Action): (c: nat)
    ensures c >= 1
  {
    if a.Callback? then 1 + CostAll(a.queued) else 1
  }

  function CostOf(r: Request): (c: nat)
    ensures c == Cost(r.action)
  {
    match r
    case Request(_, action) => Cost(action)
  }

  function CostAll(rs: seq<Request>): nat {
    if rs == [] then 0 else CostAll(rs[..|rs| - 1]) + CostOf(rs[|rs| - 1])
  }

  function Load(es: seq<Event>): nat {
    if es == [] then 0 else Load(es[..|es| - 1]) + Cost(es[|es| - 1].action)
  }

  lemma {:induction false} LoadAppend(a: seq<Event>, b: seq<Event>)
    ensures Load(a + b) == Load(a) + Load(b)
  {
    if b == [] {
      assert a + b == a;
    } else {
      assert (a + b)[..|a| + |b| - 1] == a + b[..|b| - 1];
      LoadAppend(a, b[..|b| - 1]);
    }
  }

  lemma LoadOne(e: Event)
    ensures Load([e]) == Cost(e.action)
  {
    assert [e][..0] == [];
  }

  lemma {:induction false} LoadInsert(es: seq<Event>, e: Event)
    ensures Load(Insert(es, e)) == Load(es) + Cost(e.action)
  {
    var k := Place(es, e.when);
    LoadAppend(es[..k], [e]);
    LoadAppend(es[..k] + [e], es[k..]);
    LoadOne(e);
    LoadAppend(es[..k], es[k..]);
    assert es[..k] + es[k..] == es;
  }

  lemma {:induction false} LoadLater(q: Queue, t: int, rs: seq<Request>)
    ensures Load(AddLater(q, t, rs).pending) <= Load(q.pending) + CostAll(rs)
    decreases |rs|
  {
    if rs != [] {
      var n := |rs| - 1;
      var q' := AddLater(q, t, rs[..n]);
      LoadLater(q, t, rs[..n]);
      LoadInsert(q'.pending, Event(rs[n].when, q'.nextId, rs[n].action));
    }
  }

  lemma FireLess(q: Queue)
    requires q.pending != []
    ensures Load(Fire(q).pending) < Load(q.pending)
  {
    var e := q.pending[0];
    LoadLater(Queue(q.pending[1..], q.nextId, Effect(q.world, e.action)), e.when, Requests(e.action));
    LoadAppend([e], q.pending[1..]);
    LoadOne(e);
    assert [e] + q.pending[1..] == q.pending;
    assert CostAll([]) == 0;
  }

  // ---- servicing ----

  /** Perform due events until none is due. */
  ghost function Service(q: Queue, now: int): (q': Queue)
    ensures !Due(q', now)
    decreases Load(q.pending)
  {
    if Due(q, now) then
      FireLess(q);
      Service(Fire(q), now)
    else q
  }

  /** The events performed, in order. */
  ghost function Performed(q: Queue, now: int): seq<Event>
    decreases Load(q.pending)
  {
    if Due(q, now) then
      FireLess(q);
      [q.pending[0]] + Performed(Fire(q), now)
    else []
  }

  lemma {:induction false} LaterSorted(q: Queue, t: int, rs: seq<Request>)
    requires Sorted(q.pending) && forall e :: e in q.pending ==> e.when >= t
    ensures Sorted(AddLater(q, t, rs).pending) && forall e :: e in AddLater(q, t, rs).pending ==> e.when >= t
    decreases |rs|
  {
    if rs != [] {
      var n := |rs| - 1;
      var q' := AddLater(q, t, rs[..n]);
      LaterSorted(q, t, rs[..n]);
      InsertSorted(q'.pending, Event(rs[n].when, q'.nextId, rs[n].action));
      InsertMembers(q'.pending, Event(rs[n].when, q'.nextId, rs[n].action));
    }
  }

  lemma InsertMembers(es: seq<Event>, e: Event)
    ensures forall x :: x in Insert(es, e) <==> x in es || x == e
  {
    var k := Place(es, e.when);
    assert es == es[..k] + es[k..];
  }

  lemma FireSorted(q: Queue)
    requires q.pending != [] && Sorted(q.pending)
    ensures Sorted(Fire(q).pending) && forall e :: e in Fire(q).pending ==> e.when >= q.pending[0].when
  {
    var e, rest := q.pending[0], q.pending[1..];
    assert forall k :: 0 <= k < |rest| ==> rest[k] == q.pending[k + 1];
    LaterSorted(Queue(rest, q.nextId, Effect(q.world, e.action)), e.when, Requests(e.action));
  }

  /** Events are performed in time order, none before its time; and afterwards
      the queue is sorted and holds only events of the future. */
  lemma {:induction false} ServiceInOrder(q: Queue, now: int)
    requires Sorted(q.pending)
    ensures Sorted(Performed(q, now)) && Sorted(Service(q, now).pending)
    ensures forall e :: e in Performed(q, now) ==> e.when <= now && (q.pending != [] ==> e.when >= q.pending[0].when)
    ensures forall e :: e in Service(q, now).pending ==> e.when > now
    decreases Load(q.pending)
  {
    if Due(q, now) {
      FireLess(q);
      FireSorted(q);
      var q', first := Fire(q), q.pending[0];
      ServiceInOrder(q', now);
      var ps := Performed(q', now);
      forall e | e in ps
        ensures e.when >= first.when
      {
        assert q'.pending != [];
        assert q'.pending[0] in q'.pending;
      }
      assert forall k :: 0 <= k < |ps| ==> ps[k] in ps;
    } else if q.pending != [] {
      assert forall k :: 0 <= k < |q.pending| ==> q.pending[0].when <= q.pending[k].when;
    }
  }

  /** Servicing up to t1 and then up to t2 is servicing up to t2. */
  lemma {:induction false} ServiceTwice(q: Queue, t1: int, t2: int)
    requires t1 <= t2
    ensures Service(Service(q, t1), t2) == Service(q, t2)
    ensures Performed(q, t1) + Performed(Service(q, t1), t2) == Performed(q, t2)
    decreases Load(q.pending)
  {
    if Due(q, t1) {
      ServiceStep(q, t1, []);
      ServiceStep(q, t2, []);
      ServiceTwice(Fire(q), t1, t2);
      Regroup(q.pending[0], Performed(Fire(q), t1), Performed(Service(Fire(q), t1), t2));
    } else {
      assert [] + Performed(q, t2) == Performed(q, t2);
    }
  }

  lemma Regroup(e: Event, a: seq<Event>, b: seq<Event>)
    ensures ([] + [e] + a) + b == [] + [e] + (a + b)
  {
  }

  lemma {:induction false} ServiceStep(q: Queue, now: int, before: seq<Event>)
    requires Due(q, now)
    ensures Load(Fire(q).pending) < Load(q.pending) && Service(q, now) == Service(Fire(q), now)
    ensures Performed(q, now) == [] + [q.pending[0]] + Performed(Fire(q), now)
    ensures before + [q.pending[0]] + Performed(Fire(q), now) == before + Performed(q, now)
  {
    FireLess(q);
  }

  /** The due events of a sorted list come first. */
  function DueCount(es: seq<Event>, now: int): (k: nat)
    ensures k <= |es|
    ensures forall j :: 0 <= j < k ==> es[j].when <= now
    ensures k < |es| ==> es[k].when > now
  {
    if es == [] || es[0].when > now then 0 else 1 + DueCount(es[1..], now)
  }

  /** Without callbacks exactly the due events are performed, each once. */
  lemma {:induction false} ServicePlain(q: Queue, now: int)
    requires forall e :: e in q.pending ==> !e.action.Callback?
    ensures var k := DueCount(q.pending, now);
            Performed(q, now) == q.pending[..k] && Service(q, now).pending == q.pending[k..]
    decreases Load(q.pending)
  {
    if Due(q, now) {
      FireLess(q);
      var e, rest := q.pending[0], q.pending[1..];
      assert e in q.pending && Requests(e.action) == [];
      assert Fire(q).pending == rest;
      ServicePlain(Fire(q), now);
      var k := DueCount(rest, now);
      assert q.pending[..k + 1] == [e] + rest[..k] && q.pending[k + 1..] == rest[k..];
    }
  }

  // ---- what the events performed do to the world ----

  predicate Touches(a: Action, i: nat) { a == SetBit(i) || a == ClearBit(i) }

  predicate Sets(a: Action, c: nat) { a.SetFlag? && a.cell == c }

  /** A bit is as the last event for it leaves it. */
  ghost predicate BitAfter(was: bool, es: seq<Event>, i: nat, after: bool) {
    || (after == was && forall k :: 0 <= k < |es| ==> !Touches(es[k].action, i))
    || exists k :: 0 <= k < |es| && LastTouch(es, i, k) && after == (es[k].action == SetBit(i))
  }

  ghost predicate LastTouch(es: seq<Event>, i: nat, k: nat)
    requires k < |es|
  {
    Touches(es[k].action, i) && forall j :: k < j < |es| ==> !Touches(es[j].action, i)
  }

  /** The sum of what the events add to a variable. */
  function Added(es: seq<Event>, c: nat): int {
    if es == [] then 0
    else (if es[0].action.AddOp? && es[0].action.cell == c then es[0].action.addend else 0) + Added(es[1..], c)
  }

  /** A variable has the value last set, or else its old one, and what was added since. */
  ghost predicate CellAfter(was: int, es: seq<Event>, c: nat, after: int) {
    || (after == was + Added(es, c) && forall k :: 0 <= k < |es| ==> !Sets(es[k].action, c))
    || exists k :: 0 <= k < |es| && LastSet(es, c, k) && after == es[k].action.value + Added(es[k + 1..], c)
  }

  ghost predicate LastSet(es: seq<Event>, c: nat, k: nat)
    requires k < |es|
  {
    Sets(es[k].action, c) && forall j :: k < j < |es| ==> !Sets(es[j].action, c)
  }

  lemma BitCons(was: bool, e: Event, es: seq<Event>, i: nat, after: bool)
    requires BitAfter(if Touches(e.action, i) then e.action.SetBit? else was, es, i, after)
    ensures BitAfter(was, [e] + es, i, after)
  {
    var all := [e] + es;
    if forall k :: 0 <= k < |es| ==> !Touches(es[k].action, i) {
      if Touches(e.action, i) {
        assert LastTouch(all, i, 0);
      }
    } else {
      var k :| 0 <= k < |es| && LastTouch(es, i, k) && after == (es[k].action == SetBit(i));
      assert all[k + 1] == es[k] && LastTouch(all, i, k + 1);
    }
  }

  lemma CellCons(w: World, e: Event, es: seq<Event>, c: nat, after: int)
    requires CellAfter(Effect(w, e.action).Cell(c), es, c, after)
    ensures CellAfter(w.Cell(c), [e] + es, c, after)
  {
    var all := [e] + es;
    assert all[1..] == es;
    if forall k :: 0 <= k < |es| ==> !Sets(es[k].action, c) {
      assert after == Effect(w, e.action).Cell(c) + Added(es, c);
      if Sets(e.action, c) {
        assert LastSet(all, c, 0);
      }
    } else {
      var k :| 0 <= k < |es| && LastSet(es, c, k) && after == es[k].action.value + Added(es[k + 1..], c);
      assert all[k + 1] == es[k] && all[k + 2..] == es[k + 1..] && LastSet(all, c, k + 1);
    }
  }

  /** After servicing, every bit and every variable is what the events performed make it. */
  lemma {:induction false} ServiceEffects(q: Queue, now: int, i: nat)
    ensures BitAfter(i in q.world.bits, Performed(q, now), i, i in Service(q, now).world.bits)
    ensures CellAfter(q.world.Cell(i), Performed(q, now), i, Service(q, now).world.Cell(i))
    decreases Load(q.pending)
  {
    if Due(q, now) {
      FireLess(q);
      var e, q' := q.pending[0], Fire(q);
      ServiceEffects(q', now, i);
      assert q'.world == Effect(q.world, e.action);
      BitCons(i in q.world.bits, e, Performed(q', now), i, i in Service(q', now).world.bits);
      CellCons(q.world, e, Performed(q', now), i, Service(q', now).world.Cell(i));
    }
  }

  // ---- what callbacks lose ----

  /** The requests of a callback, none lost. */
  function AddAll(q: Queue, rs: seq<Request>): (q': Queue)
    ensures q'.world == q.world && |q'.pending| == |q.pending| + |rs|
    decreases |rs|
  {
    if rs == [] then q else Add(AddAll(q, rs[..|rs| - 1]), rs[|rs| - 1])
  }

  lemma {:induction false} LaterCount(q: Queue, t: int, rs: seq<Request>)
    ensures |AddLater(q, t, rs).pending| <= |q.pending| + |rs|
    ensures |AddLater(q, t, rs).pending| == |q.pending| + |rs| <==> forall r :: r in rs ==> r.when > t
    ensures (forall r :: r in rs ==> r.when > t) ==> AddLater(q, t, rs) == AddAll(q, rs)
    decreases |rs|
  {
    if rs != [] {
      var n := |rs| - 1;
      LaterCount(q, t, rs[..n]);
      assert rs == rs[..n] + [rs[n]];
    }
  }

  /** A callback run by the service loop keeps all events it queues exactly when
      it queues none at or before the time of its own event. */
  lemma CallbackKeepsAll(q: Queue)
    requires q.pending != []
    ensures var e := q.pending[0];
            Fire(q) == AddAll(Queue(q.pending[1..], q.nextId, Effect(q.world, e.action)), Requests(e.action))
            <==> forall r :: r in Requests(e.action) ==> r.when > e.when
  {
    var e := q.pending[0];
    LaterCount(Queue(q.pending[1..], q.nextId, Effect(q.world, e.action)), e.when, Requests(e.action));
  }

  /** An event that a callback queues for its own time is never performed. */
  lemma SameTimeLost(t: int, id: nat, a: Action, nextId: nat, w: World)
    ensures var e := Event(t, id, Callback([Request(t, a)]));
            Fire(Queue([e], nextId, w)) == Queue([], Wrap(nextId + 1), w)
  {
    var rs := [Request(t, a)];
    var q := Queue([], nextId, w);
    assert [Event(t, id, Callback(rs))][1..] == [];
    assert rs[..0] == [] && AddLater(q, t, []) == q;
    assert AddLater(q, t, rs) == q.(nextId := Wrap(nextId + 1));
  }

  lemma RemoveSorted(es: seq<Event>, k: nat)
    requires Sorted(es) && k < |es|
    ensures Sorted(RemoveAt(es, k))
  {
  }

  lemma {:induction false} AddAllSorted(q: Queue, rs: seq<Request>)
    requires Sorted(q.pending)
    ensures Sorted(AddAll(q, rs).pending)
    decreases |rs|
  {
    if rs != [] {
      var n := |rs| - 1;
      AddAllSorted(q, rs[..n]);
      InsertSorted(AddAll(q, rs[..n]).pending, Event(rs[n].when, AddAll(q, rs[..n]).nextId, rs[n].action));
    }
  }

  // ---- the lists in place ----

  function EventsOf(events: seq<Event>, nodes: seq<nat>): (es: seq<Event>)
    requires Within(nodes, |events|)
    ensures |es| == |nodes| && forall k :: 0 <= k < |nodes| ==> es[k] == events[nodes[k]]
  {
    seq(|nodes|, k requires 0 <= k < |nodes| => events[nodes[k]])
  }

  ghost predicate Disjoint(a: seq<nat>, b: seq<nat>) {
    forall x :: x in a ==> x !in b
  }

  /** Both lists of a descriptor pool: no descriptor is on both. */
  ghost predicate Lists(next: seq<int>, pending: int, free: int, pnodes: seq<nat>, fnodes: seq<nat>) {
    && IsChain(next, pending, pnodes) && IsChain(next, free, fnodes)
    && Within(pnodes, |next|) && Within(fnodes, |next|) && Disjoint(pnodes, fnodes)
  }

  /** A fresh descriptor for an empty free list. */
  lemma GrowFree(next: seq<int>, pending: int, pnodes: seq<nat>)
    requires Lists(next, pending, NULL, pnodes, [])
    ensures Lists(next + [NULL], pending, |next|, pnodes, [|next|])
  {
    ChainFrame(next, next + [NULL], pending, pnodes);
    assert [|next|][..] == [|next|];
  }

  /** Take the first free descriptor and put it at position k of the pending list. */
  lemma LinkNew(next: seq<int>, pending: int, free: int, pnodes: seq<nat>, fnodes: seq<nat>, k: nat)
    requires Lists(next, pending, free, pnodes, fnodes) && fnodes != [] && k <= |pnodes|
    ensures 0 <= free < |next| && free == fnodes[0] && free !in pnodes
    ensures k > 0 ==> Lists(next[free := next[pnodes[k - 1]]][pnodes[k - 1] := free], pending, next[free],
                            InsertAt(pnodes, k, free), fnodes[1..])
    ensures k == 0 ==> Lists(next[free := pending], free, next[free], InsertAt(pnodes, 0, free), fnodes[1..])
  {
    var x, rest := fnodes[0], fnodes[1..];
    assert x in fnodes;
    assert fnodes == [x] + rest;
    DistinctTail(x, rest);
    ChainPop(next, free, fnodes);
    var all := InsertAt(pnodes, k, x);
    assert forall y :: y in all <==> y in pnodes || y == x by { InsertAtMembers(pnodes, k, x); }
    assert forall j :: 0 <= j < |all| ==> all[j] in all;
    if k > 0 {
      assert pnodes[k - 1] in pnodes && forall y :: y in rest ==> y in fnodes;
      ChainInsert(next, pending, pnodes, k, x);
      AvoidsBlock(next, next[x := next[pnodes[k - 1]]][pnodes[k - 1] := x], next[x], rest, x, pnodes[k - 1]);
    } else {
      ChainPush(next, pending, pnodes, x);
      assert all == [x] + pnodes;
      AvoidsBlock(next, next[x := pending], next[x], rest, x, x);
    }
  }

  lemma InsertAtMembers(nodes: seq<nat>, k: nat, x: nat)
    requires k <= |nodes|
    ensures forall y :: y in InsertAt(nodes, k, x) <==> y in nodes || y == x
  {
    assert nodes == nodes[..k] + nodes[k..];
  }

  /** Descriptor x, taken off the pending list before position k + 1, goes to the free list. */
  lemma LinkFree(next: seq<int>, pending: int, free: int, pnodes: seq<nat>, fnodes: seq<nat>, x: nat)
    requires Lists(next, pending, free, pnodes, fnodes) && x < |next| && x !in pnodes && x !in fnodes
    ensures Lists(next[x := free], pending, x, pnodes, [x] + fnodes)
  {
    ChainPush(next, free, fnodes, x);
    AvoidsBlock(next, next[x := free], pending, pnodes, x, x);
    var all := [x] + fnodes;
    assert forall j :: 0 < j < |all| ==> all[j] == fnodes[j - 1];
  }

  /** The pending list cut behind position k. */
  lemma DropHead(next: seq<int>, pending: int, free: int, pnodes: seq<nat>, fnodes: seq<nat>, k: nat)
    requires Lists(next, pending, free, pnodes, fnodes) && k < |pnodes|
    ensures Lists(next, next[pnodes[k]], free, pnodes[k + 1..], fnodes)
    ensures pnodes[k] !in pnodes[k + 1..] && pnodes[k] !in fnodes && pnodes[k] < |next|
  {
    var post := pnodes[k + 1..];
    assert next[pnodes[k]] == At(pnodes, k + 1);
    assert forall j :: 0 <= j < |post| ==> post[j] == pnodes[k + 1 + j];
    forall j | 0 <= j < |post|
      ensures next[post[j]] == At(post, j + 1)
    {
      assert next[pnodes[k + 1 + j]] == At(pnodes, k + 2 + j);
    }
    assert pnodes[k] in pnodes;
  }

  /** Descriptor at position k out of the pending list. */
  lemma TakeOut(next: seq<int>, pending: int, free: int, pnodes: seq<nat>, fnodes: seq<nat>, k: nat)
    requires Lists(next, pending, free, pnodes, fnodes) && k < |pnodes|
    ensures pnodes[k] < |next| && pnodes[k] !in RemoveAt(pnodes, k) && pnodes[k] !in fnodes
    ensures k == 0 ==> Lists(next, next[pnodes[0]], free, RemoveAt(pnodes, 0), fnodes)
    ensures k > 0 ==> Lists(next[pnodes[k - 1] := next[pnodes[k]]], pending, free, RemoveAt(pnodes, k), fnodes)
  {
    var r := RemoveAt(pnodes, k);
    RemoveAtDistinct(pnodes, k);
    assert pnodes[k] in pnodes;
    assert forall j :: 0 <= j < |r| ==> r[j] in r;
    if k == 0 {
      ChainPop(next, pending, pnodes);
      assert r == pnodes[1..];
    } else {
      assert pnodes[k - 1] in pnodes;
      ChainUnlink(next, pending, pnodes, k);
      AvoidsBlock(next, next[pnodes[k - 1] := next[pnodes[k]]], free, fnodes, pnodes[k - 1], pnodes[k - 1]);
    }
  }

  /** The first pending event with an id. */
  function FindId(es: seq<Event>, id: nat): (k: nat)
    ensures k <= |es| && (k < |es| ==> es[k].id == id) && forall j :: 0 <= j < k ==> es[j].id != id
  {
    if es == [] || es[0].id == id then 0 else 1 + FindId(es[1..], id)
  }

  class EventQ {
    var next: seq<int>
    var events: seq<Event>
    var pending: int
    var free: int
    var nextId: nat
    var world: World

    ghost var pnodes: seq<nat>
    ghost var fnodes: seq<nat>
    ghost var queue: seq<Event>    // the pending events, in order

    /** The lists are in order, and the pending one holds the events of the queue. */
    ghost predicate Linked()
      reads this
    {
      && |next| == |events| && Lists(next, pending, free, pnodes, fnodes)
      && queue == EventsOf(events, pnodes)
    }

    /** Between any two operations, also those of a callback, the queue is sorted. */
    ghost predicate Valid()
      reads this
    {
      Linked() && Sorted(queue)
    }

    ghost function State(): (q: Queue)
      reads this
    {
      Queue(queue, nextId, world)
    }

    /** A descriptor on neither list: the event being performed. */
    ghost predicate Idle(x: nat)
      reads this
    {
      x < |next| && x !in pnodes && x !in fnodes
    }

    /** eventq_init. */
    constructor (world: World)
      ensures Valid() && State() == Queue([], 1, world)
    {
      next, events, pending, free, nextId, this.world := [], [], NULL, NULL, 1, world;
      pnodes, fnodes, queue := [], [], [];
    }

    /** A free descriptor, from a fresh allocation if the free list is empty. */
    method EnsureFree()
      requires Linked()
      modifies this`next, this`events, this`free, this`fnodes
      ensures Linked() && fnodes != [] && |events| >= |old(events)| && events[..|old(events)|] == old(events)
      ensures fnodes == old(fnodes) || fnodes == [|old(next)|]
    {
      if free == NULL {
        assert fnodes == [];
        GrowFree(next, pending, pnodes);
        fnodes := [|next|];
        free, next, events := |next|, next + [NULL], events + [Event(0, 0, SetBit(0))];
      }
    }

    /** The insertion point: after position k - 1 of the pending list. */
    method FindPlace(when: int) returns (prev: int, ghost k: nat)
      requires Linked()
      ensures k == Place(queue, when) <= |pnodes| && prev == At(pnodes, k - 1)
    {
      ghost var es := queue;
      var ev := pending;
      prev, k := NULL, 0;
      while ev != NULL && events[ev].when < when
        invariant 0 <= k <= |pnodes| && ev == At(pnodes, k) && prev == At(pnodes, k - 1)
        invariant forall j :: 0 <= j < k ==> es[j].when < when
        decreases |pnodes| - k
      {
        assert next[pnodes[k]] == At(pnodes, k + 1) && es[k] == events[pnodes[k]];
        prev, ev := ev, next[ev];
        k := k + 1;
      }
      assert k < |pnodes| ==> es[k] == events[pnodes[k]];
    }

    /** Write an event into the first free descriptor. */
    method Describe(r: Request) returns (x: nat)
      requires Linked()
      modifies this`next, this`events, this`free, this`fnodes, this`nextId
      ensures Linked() && fnodes != [] && x == free == fnodes[0] && x < |events| && |old(next)| <= |next|
      ensures fnodes == old(fnodes) || fnodes == [|old(next)|]
      ensures events[x] == Event(r.when, old(nextId), r.action) && nextId == Wrap(old(nextId) + 1)
    {
      EnsureFree();
      assert fnodes[0] in fnodes;
      x := free;
      EventUntouched(events, pnodes, x, Event(r.when, nextId, r.action));
      events := events[x := Event(r.when, nextId, r.action)];
      nextId := Wrap(nextId + 1);
    }

    /** Move the first free descriptor behind `prev`, or to the front. */
    method LinkAt(x: nat, prev: int, ghost k: nat)
      requires Linked() && fnodes != [] && x == free && x < |events| && k <= |pnodes| && prev == At(pnodes, k - 1)
      modifies this`next, this`pending, this`free, this`pnodes, this`fnodes, this`queue
      ensures Linked() && pnodes == InsertAt(old(pnodes), k, x) && k <= |old(queue)|
      ensures fnodes == old(fnodes)[1..] && |next| == |old(next)|
      ensures queue == PutAt(old(queue), k, events[x])
      ensures forall z :: z in pnodes <==> z in old(pnodes) || z == x
    {
      EventsInsert(events, pnodes, k, x);
      LinkNew(next, pending, free, pnodes, fnodes, k);
      free := next[x];
      if prev != NULL {
        next := next[x := next[prev]];
        next := next[prev := x];
      } else {
        next := next[x := pending];
        pending := x;
      }
      InsertAtMembers(pnodes, k, x);
      queue := PutAt(queue, k, events[x]);
      pnodes, fnodes := InsertAt(pnodes, k, x), fnodes[1..];
    }

    /** __QUEUE_EVENT. */
    method QueueEvent(r: Request, ghost busy: nat) returns (ghost x: nat)
      requires Valid()
      modifies this
      ensures Valid() && State() == Add(old(State()), r)
      ensures |old(pnodes)| == |old(queue)| && pnodes == InsertAt(old(pnodes), Place(old(queue), r.when), x)
      ensures old(Idle(busy)) ==> Idle(busy)
    {
      ghost var q := State();
      InsertSorted(queue, Event(r.when, nextId, r.action));
      var y := Describe(r);
      var prev;
      ghost var k;
      prev, k := FindPlace(r.when);
      assert old(Idle(busy)) ==> busy != y && busy < |next| && busy !in fnodes by {
        assert y in fnodes;
      }
      LinkAt(y, prev, k);
      x := y;
      AddShape(q, r, State(), k);
    }

    /** An action on bits and variables. */
    method Perform(a: Action)
      requires Linked()
      modifies this`world
      ensures Linked() && world == Effect(old(world), a)
    {
      match a
      case SetBit(i) => world := world.(bits := world.bits + {i});
      case ClearBit(i) => world := world.(bits := world.bits - {i});
      case SetFlag(i, v) => world := world.(cells := world.cells[i := v]);
      case AddOp(i, v) => world := world.(cells := world.cells[i := world.Cell(i) + v]);
      case Callback(_) =>
    }

    /** The queueing of a callback whose own event still heads the pending list:
        what it queues for later ends up behind that event, the rest before it. */
    method QueueBehind(rs: seq<Request>, ghost x: nat, ghost e: Event) returns (ghost j: nat)
      requires Valid() && pnodes != [] && pnodes[0] == x && queue[0] == e
      modifies this
      ensures Valid() && j < |pnodes| == |queue| && pnodes[j] == x
      ensures Queue(queue[j + 1..], nextId, world)
           == AddLater(Queue(old(queue)[1..], old(nextId), old(world)), e.when, rs)
    {
      ghost var q := Queue(queue[1..], nextId, world);
      j := 0;
      for i := 0 to |rs|
        invariant Valid() && j < |pnodes| && pnodes[j] == x && world == q.world
        invariant Reached(queue, nextId, j, e, AddLater(q, e.when, rs[..i]))
      {
        LaterNext(q, e.when, rs, i);
        j := QueueOne(rs[i], x, e, j, AddLater(q, e.when, rs[..i]));
      }
      assert rs[..|rs|] == rs;
    }

    method QueueOne(r: Request, ghost x: nat, ghost e: Event, ghost j: nat, ghost q: Queue) returns (ghost j': nat)
      requires Valid() && j < |pnodes| && pnodes[j] == x && Reached(queue, nextId, j, e, q)
      modifies this
      ensures Valid() && j' < |pnodes| && pnodes[j'] == x && world == old(world)
      ensures Reached(queue, nextId, j', e, LaterOne(q, e.when, r))
    {
      BehindStep(queue, j, e, q.pending, Event(r.when, nextId, r.action));
      ghost var k, nodes := Place(queue, r.when), pnodes;
      ghost var y := QueueEvent(r, x);
      NodeMoves(nodes, k, y, j);
      j' := if r.when > e.when then j else j + 1;
    }

    /** Find an event by its id and take it off the pending list. */
    method Unlink(id: nat) returns (ev: int, ghost k: nat)
      requires Linked()
      modifies this`next, this`pending, this`pnodes, this`queue
      ensures Linked() && k == FindId(old(queue), id) && (ev == NULL <==> k == |old(queue)|)
      ensures ev == NULL ==> queue == old(queue)
      ensures ev != NULL ==>
                && 0 <= ev < |events| && events[ev] == old(queue)[k] && Idle(ev)
                && queue == RemoveAt(old(queue), k)
    {
      var prev;
      prev, ev, k := NULL, pending, 0;
      while ev != NULL && events[ev].id != id
        invariant 0 <= k <= |pnodes| && ev == At(pnodes, k) && prev == At(pnodes, k - 1)
        invariant forall j :: 0 <= j < k ==> queue[j].id != id
        decreases |pnodes| - k
      {
        assert next[pnodes[k]] == At(pnodes, k + 1) && queue[k] == events[pnodes[k]];
        prev, ev := ev, next[ev];
        k := k + 1;
      }
      assert k < |pnodes| ==> queue[k] == events[pnodes[k]];
      FindIdAt(queue, id, k);
      if ev != NULL {
        TakeOut(next, pending, free, pnodes, fnodes, k);
        EventsRemove(events, pnodes, k);
        if prev != NULL {
          next := next[prev := next[ev]];
        } else {
          pending := next[ev];
        }
        pnodes, queue := RemoveAt(pnodes, k), RemoveAt(queue, k);
      }
    }

    method Release(ev: nat)
      requires Linked() && Idle(ev)
      modifies this`next, this`free, this`fnodes
      ensures Linked()
    {
      LinkFree(next, pending, free, pnodes, fnodes, ev);
      next, free, fnodes := next[ev := free], ev, [ev] + fnodes;
    }

    /** eventq_remove: the first event with the id goes, and nothing is performed. */
    method RemoveEvent(id: nat) returns (found: bool)
      requires Valid()
      modifies this
      ensures Valid() && nextId == old(nextId) && world == old(world)
      ensures var k := FindId(old(queue), id);
              (found <==> k < |old(queue)|) && queue == if found then RemoveAt(old(queue), k) else old(queue)
    {
      var ev;
      ghost var k;
      ev, k := Unlink(id);
      found := ev != NULL;
      if found {
        RemoveSorted(old(queue), k);
        Release(ev);
      }
    }

    /** eventq_execute: the first event with the id is taken out and performed at
        once; its callback finds a queue without it, so nothing is lost. */
    method ExecuteEvent(id: nat) returns (found: bool)
      requires Valid()
      modifies this
      ensures Valid()
      ensures var k := FindId(old(queue), id);
              && (found <==> k < |old(queue)|)
              && (found ==> var a := old(queue)[k].action;
                   State() == AddAll(Queue(RemoveAt(old(queue), k), old(nextId), Effect(old(world), a)), Requests(a)))
              && (!found ==> State() == old(State()))
    {
      var ev;
      ghost var k;
      ev, k := Unlink(id);
      found := ev != NULL;
      if found {
        RemoveSorted(old(queue), k);
        var a := events[ev].action;
        Perform(a);
        if a.Callback? {
          QueueAll(a.queued, ev);
        }
        Release(ev);
      }
    }

    method QueueAll(rs: seq<Request>, ghost ev: nat)
      requires Valid() && Idle(ev)
      modifies this
      ensures Valid() && Idle(ev)
      ensures State() == AddAll(old(State()), rs)
    {
      for i := 0 to |rs|
        invariant Valid() && Idle(ev)
        invariant State() == AddAll(old(State()), rs[..i])
      {
        assert rs[..i + 1][..i] == rs[..i];
        ghost var x := QueueEvent(rs[i], ev);
      }
      assert rs[..|rs|] == rs;
    }

    /** One turn of the service loop. */
    method FireFirst()
      requires Valid() && pending != NULL
      modifies this
      ensures Valid() && old(queue) != [] && State() == Fire(old(State()))
    {
      var x := pending;
      ghost var e := queue[0];
      assert e == events[x];
      Perform(events[x].action);
      ghost var j := 0;
      if events[x].action.Callback? {
        j := QueueBehind(events[x].action.queued, x, e);
      }
      Retire(x, j);
    }

    /** The pending list continues behind x, and x goes to the free list. */
    method Retire(x: nat, ghost j: nat)
      requires Valid() && j < |pnodes| && pnodes[j] == x
      modifies this`next, this`pending, this`free, this`pnodes, this`fnodes, this`queue
      ensures Valid() && j < |old(queue)| && queue == old(queue)[j + 1..]
    {
      DropHead(next, pending, free, pnodes, fnodes, j);
      LinkFree(next, next[x], free, pnodes[j + 1..], fnodes, x);
      EventsDrop(events, pnodes, j + 1);
      pending := next[x];
      next, free := next[x := free], x;
      pnodes, fnodes, queue := pnodes[j + 1..], [x] + fnodes, queue[j + 1..];
    }

    /** eventq_service_events. */
    method ServiceEvents(now: int) returns (ghost performed: seq<Event>)
      requires Valid()
      modifies this
      ensures Valid() && State() == Service(old(State()), now) && performed == Performed(old(State()), now)
    {
      ghost var q := State();
      performed := [];
      assert [] + Performed(q, now) == Performed(q, now);
      while pending != NULL && events[pending].when <= now
        invariant Valid()
        invariant Service(State(), now) == Service(q, now)
        invariant performed + Performed(State(), now) == Performed(q, now)
        decreases Load(queue)
      {
        assert queue[0] == events[pending];
        ServiceStep(State(), now, performed);
        performed := performed + [queue[0]];
        FireFirst();
      }
      assert pnodes != [] ==> queue[0] == events[pending];
      assert performed + [] == performed;
    }
  }

  /** The real queue, with event e still in it at position j, against the queue meant. */
  ghost predicate Reached(es: seq<Event>, nextId: nat, j: nat, e: Event, q: Queue) {
    Behind(es, j, e, q.pending) && nextId == q.nextId
  }

  /** One request of a callback run at time t. */
  function LaterOne(q: Queue, t: int, r: Request): Queue {
    Queue(KeepLater(q.pending, t, Event(r.when, q.nextId, r.action)), Wrap(q.nextId + 1), q.world)
  }

  lemma {:induction false} LaterNext(q: Queue, t: int, rs: seq<Request>, i: nat)
    requires i < |rs|
    ensures AddLater(q, t, rs[..i + 1]) == LaterOne(AddLater(q, t, rs[..i]), t, rs[i])
  {
    assert rs[..i + 1][..i] == rs[..i];
  }

  /** What of an event queued by a callback at time t reaches the queue. */
  function KeepLater(later: seq<Event>, t: int, n: Event): seq<Event> {
    if n.when > t then Insert(later, n) else later
  }

  lemma {:induction false} BehindStep(es: seq<Event>, j: nat, e: Event, later: seq<Event>, n: Event)
    requires Behind(es, j, e, later)
    ensures n.when > e.when <==> Place(es, n.when) > j
    ensures Behind(Insert(es, n), if n.when > e.when then j else j + 1, e, KeepLater(later, e.when, n))
  {
    if n.when > e.when {
      InsertAfter(es, j, e, later, n);
    } else {
      InsertBefore(es, j, e, later, n);
    }
  }

  /** Event e stands at position j, nothing before it is later, and `later` follows it. */
  ghost predicate Behind(es: seq<Event>, j: nat, e: Event, later: seq<Event>) {
    && j < |es| && es[j] == e && es[j + 1..] == later
    && forall k :: 0 <= k <= j ==> es[k].when <= e.when
  }

  lemma {:induction false} InsertedAt(es: seq<Event>, e: Event, m: nat)
    requires m <= |es|
    ensures Insert(es, e)[m] == if m < Place(es, e.when) then es[m] else if m == Place(es, e.when) then e else es[m - 1]
  {
  }

  /** Queueing at or before the time of e moves it back by one place. */
  lemma {:induction false} InsertBefore(es: seq<Event>, j: nat, e: Event, later: seq<Event>, n: Event)
    requires Behind(es, j, e, later) && n.when <= e.when
    ensures Place(es, n.when) <= j && Behind(Insert(es, n), j + 1, e, later)
  {
    var r := Insert(es, n);
    assert Place(es, n.when) <= j;
    forall k | 0 <= k <= j + 1
      ensures r[k].when <= e.when
    {
      InsertedAt(es, n, k);
    }
    InsertedAt(es, n, j + 1);
    forall k | 0 <= k < |later|
      ensures r[j + 2 + k] == later[k]
    {
      InsertedAt(es, n, j + 2 + k);
    }
    assert r[j + 2..] == later;
  }

  lemma {:induction false} InsertBehind(front: seq<Event>, later: seq<Event>, n: Event)
    requires forall k :: 0 <= k < |front| ==> front[k].when < n.when
    ensures Place(front + later, n.when) == |front| + Place(later, n.when)
    ensures Insert(front + later, n) == front + Insert(later, n)
  {
    var es := front + later;
    assert es[|front|..] == later;
    PlaceBehind(es, |front|, n.when);
    PutBehind(front, later, Place(later, n.when), n);
  }

  /** Queueing for later than e goes into what follows it. */
  lemma {:induction false} InsertAfter(es: seq<Event>, j: nat, e: Event, later: seq<Event>, n: Event)
    requires Behind(es, j, e, later) && n.when > e.when
    ensures Place(es, n.when) > j && Behind(Insert(es, n), j, e, Insert(later, n))
  {
    var front := es[..j + 1];
    assert es == front + later;
    assert forall k :: 0 <= k <= j ==> front[k] == es[k];
    InsertBehind(front, later, n);
    BehindGlue(front, j, e, Insert(later, n));
  }

  lemma BehindGlue(front: seq<Event>, j: nat, e: Event, later: seq<Event>)
    requires |front| == j + 1 && front[j] == e && forall k :: 0 <= k <= j ==> front[k].when <= e.when
    ensures Behind(front + later, j, e, later)
  {
  }

  lemma PutBehind(front: seq<Event>, later: seq<Event>, p: nat, n: Event)
    requires p <= |later|
    ensures PutAt(front + later, |front| + p, n) == front + PutAt(later, p, n)
    ensures PutAt(front + later, |front| + p, n)[|front|..] == PutAt(later, p, n)
  {
  }

  lemma NodeMoves(nodes: seq<nat>, k: nat, y: nat, j: nat)
    requires k <= |nodes| && j < |nodes|
    ensures InsertAt(nodes, k, y)[if j < k then j else j + 1] == nodes[j]
  {
  }

  lemma {:induction false} PlaceBehind(es: seq<Event>, n: nat, when: int)
    requires n <= |es| && forall k :: 0 <= k < n ==> es[k].when < when
    ensures Place(es, when) == n + Place(es[n..], when)
  {
    if n == 0 {
      assert es[0..] == es;
    } else {
      assert es[1..][n - 1..] == es[n..];
      PlaceBehind(es[1..], n - 1, when);
    }
  }

  lemma AddShape(q: Queue, r: Request, q': Queue, k: nat)
    requires k == Place(q.pending, r.when) && q'.world == q.world && q'.nextId == Wrap(q.nextId + 1)
    requires q'.pending == PutAt(q.pending, k, Event(r.when, q.nextId, r.action))
    ensures q' == Add(q, r) && q'.pending == Insert(q.pending, Event(r.when, q.nextId, r.action))
  {
  }

  lemma EventUntouched(events: seq<Event>, nodes: seq<nat>, x: nat, e: Event)
    requires Within(nodes, |events|) && x < |events| && x !in nodes
    ensures EventsOf(events[x := e], nodes) == EventsOf(events, nodes)
  {
    assert forall j :: 0 <= j < |nodes| ==> nodes[j] in nodes;
  }

  lemma EventsDrop(events: seq<Event>, nodes: seq<nat>, k: nat)
    requires Within(nodes, |events|) && k <= |nodes|
    ensures Within(nodes[k..], |events|) && EventsOf(events, nodes[k..]) == EventsOf(events, nodes)[k..]
  {
  }

  lemma EventsRemove(events: seq<Event>, nodes: seq<nat>, k: nat)
    requires Within(nodes, |events|) && k < |nodes|
    ensures Within(RemoveAt(nodes, k), |events|)
    ensures EventsOf(events, RemoveAt(nodes, k)) == RemoveAt(EventsOf(events, nodes), k)
  {
  }

  lemma {:induction false} FindIdAt(es: seq<Event>, id: nat, k: nat)
    requires k <= |es| && (k < |es| ==> es[k].id == id) && forall j :: 0 <= j < k ==> es[j].id != id
    ensures FindId(es, id) == k
  {
  }

  lemma EventsInsert(events: seq<Event>, nodes: seq<nat>, k: nat, x: nat)
    requires Within(nodes, |events|) && x < |events| && k <= |nodes|
    ensures Within(InsertAt(nodes, k, x), |events|)
    ensures EventsOf(events, InsertAt(nodes, k, x))
         == PutAt(EventsOf(events, nodes), k, events[x])
  {
  }
}
