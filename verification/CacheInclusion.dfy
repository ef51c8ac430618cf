/** Order of replacement: the valid-prefix invariant of LRU and FIFO, and the
    LRU stack property (a smaller cache's contents are a prefix of a larger one's). */
module CacheInclusion {
  import opened Pow2
  import opened FlatMemory
  import opened Recency
  import opened CacheModel
  import opened Options
  import opened CacheTransparency

  // ---- the valid tags of a way list, from head to tail ----

  ghost predicate InLines(order: seq<nat>, lines: seq<Line>) {
    forall k :: 0 <= k < |order| ==> order[k] < |lines|
  }

  function Tags(order: seq<nat>, lines: seq<Line>): (ts: seq<nat>)
    requires InLines(order, lines)
    ensures |ts| <= |order|
  {
    if order == [] then []
    else (if lines[order[0]].valid then [lines[order[0]].tag] else []) + Tags(order[1..], lines)
  }

  lemma {:induction false} TagsAppend(a: seq<nat>, b: seq<nat>, lines: seq<Line>)
    requires InLines(a, lines) && InLines(b, lines)
    ensures InLines(a + b, lines) && Tags(a + b, lines) == Tags(a, lines) + Tags(b, lines)
  {
    if a == [] {
      assert a + b == b;
    } else {
      var v, rest := a[0], a[1..];
      assert a == [v] + rest && a + b == [v] + (rest + b);
      TagsAppend(rest, b, lines);
      var head := if lines[v].valid then [lines[v].tag] else [];
      assert Tags(a, lines) == head + Tags(rest, lines) by { TagsCons(v, rest, lines); }
      assert Tags(a + b, lines) == head + Tags(rest + b, lines) by { TagsCons(v, rest + b, lines); }
      Regroup(head, Tags(rest, lines), Tags(b, lines));
    }
  }

  lemma Regroup(a: seq<nat>, b: seq<nat>, c: seq<nat>)
    ensures a + (b + c) == (a + b) + c
  {
  }

  /** Only the tag and valid bit of listed lines matter. */
  lemma {:induction false} TagsFrame(order: seq<nat>, lines: seq<Line>, lines': seq<Line>)
    requires InLines(order, lines) && InLines(order, lines')
    requires forall k :: 0 <= k < |order| ==>
               lines[order[k]].valid == lines'[order[k]].valid && lines[order[k]].tag == lines'[order[k]].tag
    ensures Tags(order, lines) == Tags(order, lines')
  {
    if order != [] {
      TagsFrame(order[1..], lines, lines');
    }
  }

  lemma {:induction false} TagsMember(order: seq<nat>, lines: seq<Line>, t: nat)
    requires InLines(order, lines)
    ensures t in Tags(order, lines) <==> exists k :: 0 <= k < |order| && Matches(lines[order[k]], t)
  {
    if order != [] {
      TagsMember(order[1..], lines, t);
      if Matches(lines[order[0]], t) {
        assert t in Tags(order, lines);
      }
      if exists k :: 0 <= k < |order| && Matches(lines[order[k]], t) {
        var k :| 0 <= k < |order| && Matches(lines[order[k]], t);
        assert k > 0 ==> order[1..][k - 1] == order[k];
      }
    }
  }

  lemma {:induction false} TagsFind(c: Config, i: nat, ws: WaySet, t: nat)
    requires ValidConfig(c) && SetShape(c, i, ws)
    ensures InLines(ws.order, ws.lines)
    ensures t in Tags(ws.order, ws.lines) <==> FindWay(ws.lines, t) < c.assoc
  {
    TagsMember(ws.order, ws.lines, t);
    var w := FindWay(ws.lines, t);
    if w < c.assoc {
      Covers(ws.order, c.assoc, w);
    }
  }

  lemma {:induction false} TagsCons(v: nat, rest: seq<nat>, lines: seq<Line>)
    requires v < |lines| && InLines(rest, lines)
    ensures InLines([v] + rest, lines)
    ensures Tags([v] + rest, lines) == if lines[v].valid then [lines[v].tag] + Tags(rest, lines) else Tags(rest, lines)
  {
    assert ([v] + rest)[1..] == rest;
  }

  /** Taking a line out of the list takes its tag out of the tags. */
  lemma {:induction false} TagsRemove(order: seq<nat>, lines: seq<Line>, w: nat)
    requires InLines(order, lines) && Distinct(order) && w in order && UniqueTags(lines)
    ensures w < |lines| && InLines(Remove(order, w), lines)
    ensures Tags(Remove(order, w), lines)
         == if lines[w].valid then Remove(Tags(order, lines), lines[w].tag) else Tags(order, lines)
  {
    var v, rest := order[0], order[1..];
    assert order == [v] + rest;
    DistinctTail(v, rest);
    RemoveCons(v, rest, w);
    TagsCons(v, rest, lines);
    if v != w {
      TagsRemove(rest, lines, w);
      TagsCons(v, Remove(rest, w), lines);
    }
    RemoveCons(lines[v].tag, Tags(rest, lines), lines[w].tag);
  }

  // ---- valid lines come first ----

  ghost predicate ValidPrefix(order: seq<nat>, lines: seq<Line>) {
    && InLines(order, lines)
    && forall j, k :: 0 <= j < k < |order| && lines[order[k]].valid ==> lines[order[j]].valid
  }

  /** The list is full of valid lines exactly when its last line is valid. */
  lemma {:induction false} FullWhenLastValid(order: seq<nat>, lines: seq<Line>)
    requires ValidPrefix(order, lines) && order != []
    ensures |Tags(order, lines)| == |order| <==> lines[order[|order| - 1]].valid
  {
    if |order| > 1 {
      assert order[1..][|order| - 2] == order[|order| - 1];
      FullWhenLastValid(order[1..], lines);
    }
  }

  lemma RestPrefix(order: seq<nat>, lines: seq<Line>, w: nat, l: Line)
    requires ValidPrefix(order, lines) && Distinct(order) && w in order && w < |lines|
    ensures ValidPrefix(Remove(order, w), lines[w := l])
  {
    var m, r := IndexOf(order, w), Remove(order, w);
    RemoveAtDistinct(order, m);
    forall k | 0 <= k < |r|
      ensures r[k] < |lines| && r[k] != w
    {
      assert r[k] in r;
    }
  }

  lemma MovePrefix(order: seq<nat>, lines: seq<Line>, w: nat, l: Line)
    requires ValidPrefix(order, lines) && Distinct(order) && w in order && w < |lines|
    ensures l.valid ==> ValidPrefix(ToHead(order, w), lines[w := l])
    ensures !l.valid ==> ValidPrefix(ToTail(order, w), lines[w := l])
  {
    RestPrefix(order, lines, w, l);
    var r, h := Remove(order, w), ToHead(order, w);
    assert forall k :: 0 < k < |h| ==> h[k] == r[k - 1];
  }

  lemma StayPrefix(order: seq<nat>, lines: seq<Line>, w: nat, l: Line)
    requires ValidPrefix(order, lines) && w < |lines| && l.valid == lines[w].valid
    ensures ValidPrefix(order, lines[w := l])
  {
  }

  // ---- one operation, seen as a move on tags ----

  function Take(s: seq<nat>, k: nat): (r: seq<nat>)
    ensures |r| <= k && r <= s
  {
    if |s| <= k then s else s[..k]
  }

  ghost predicate Ordered(c: Config, s: State) {
    Inv(c, s) && forall j :: 0 <= j < c.nsets ==> ValidPrefix(s.sets[j].order, s.sets[j].lines)
  }

  function SetTags(c: Config, s: State, j: nat): seq<nat>
    requires Shape(c, s) && j < c.nsets
  {
    assert SetShape(c, j, s.sets[j]);
    Tags(s.sets[j].order, s.sets[j].lines)
  }

  /** Set i becomes ws; the others stay. */
  ghost predicate OnlySet(c: Config, s: State, s': State, i: nat)
    requires Shape(c, s) && Shape(c, s') && i < c.nsets
  {
    forall j :: 0 <= j < c.nsets && j != i ==> s'.sets[j] == s.sets[j]
  }

  lemma {:induction false} PromotedTags(order: seq<nat>, lines: seq<Line>, lines': seq<Line>, w: nat)
    requires InLines(order, lines) && Distinct(order) && w in order && w < |lines| && UniqueTags(lines)
    requires |lines'| == |lines| && lines' == lines[w := lines'[w]]
    requires lines[w].valid && lines'[w].valid && lines'[w].tag == lines[w].tag
    ensures InLines(ToHead(order, w), lines')
    ensures Tags(ToHead(order, w), lines') == ToHead(Tags(order, lines), lines[w].tag)
  {
    TagsRemove(order, lines, w);
    TagsCons(w, Remove(order, w), lines);
    TagsFrame(ToHead(order, w), lines, lines');
  }

  lemma HitLines(c: Config, s: State, i: nat, w: nat, b: nat, o: nat, cmd: Cmd, now: int)
    requires Shape(c, s) && i < c.nsets && w < c.assoc && o + cmd.Size() <= c.bsize && s.sets[i].lines[w].valid
    ensures var s', ws := Hit(c, s, i, w, b, o, cmd, now).state, s.sets[i];
            && OnlySet(c, s, s', i)
            && s'.sets[i].order == (if c.policy.LRU? then ToHead(ws.order, w) else ws.order)
            && s'.sets[i].lines == ws.lines[w := s'.sets[i].lines[w]]
            && Matches(s'.sets[i].lines[w], ws.lines[w].tag)
  {
  }

  lemma HitTags(c: Config, s: State, i: nat, w: nat, b: nat, o: nat, cmd: Cmd, now: int)
    requires Ordered(c, s) && i < c.nsets && w < c.assoc && o + cmd.Size() <= c.bsize && s.sets[i].lines[w].valid
    ensures var s' := Hit(c, s, i, w, b, o, cmd, now).state;
            && OnlySet(c, s, s', i)
            && ValidPrefix(s'.sets[i].order, s'.sets[i].lines)
            && SetTags(c, s', i) == if c.policy.LRU? then ToHead(SetTags(c, s, i), s.sets[i].lines[w].tag)
                                    else SetTags(c, s, i)
  {
    var s', ws := Hit(c, s, i, w, b, o, cmd, now).state, s.sets[i];
    var lines' := s'.sets[i].lines;
    HitLines(c, s, i, w, b, o, cmd, now);
    Covers(ws.order, c.assoc, w);
    if c.policy.LRU? {
      MovePrefix(ws.order, ws.lines, w, lines'[w]);
      PromotedTags(ws.order, ws.lines, lines', w);
    } else {
      StayPrefix(ws.order, ws.lines, w, lines'[w]);
      TagsFrame(ws.order, ws.lines, lines');
    }
  }

  lemma RefillLines(c: Config, s: State, i: nat, w: nat, tag: nat, now: int)
    requires Shape(c, s) && w < c.assoc && IsBlock(c, tag, i)
    ensures var s' := Refill(c, s, i, w, tag, now).state;
            && OnlySet(c, s, s', i) && s'.sets[i].order == s.sets[i].order
            && s'.sets[i].lines == s.sets[i].lines[w := s'.sets[i].lines[w]]
            && Matches(s'.sets[i].lines[w], tag)
  {
  }

  lemma MissLines(c: Config, s: State, i: nat, tag: nat, o: nat, cmd: Cmd, now: int)
    requires Shape(c, s) && IsBlock(c, tag, i) && o + cmd.Size() <= c.bsize
    ensures var s', w := Miss(c, s, i, tag, o, cmd, now).state, Victim(c, s, i);
            && OnlySet(c, s, s', i)
            && s'.sets[i].order == (if c.policy.Random? then s.sets[i].order else ToHead(s.sets[i].order, w))
            && s'.sets[i].lines == s.sets[i].lines[w := s'.sets[i].lines[w]]
            && Matches(s'.sets[i].lines[w], tag)
  {
    RefillLines(c, MissReordered(c, s, i), i, Victim(c, s, i), tag, now);
  }

  lemma LastTag(order: seq<nat>, lines: seq<Line>)
    requires InLines(order, lines) && order != []
    ensures var front, l := order[..|order| - 1], lines[order[|order| - 1]];
            && InLines(front, lines)
            && Tags(order, lines) == if l.valid then Tags(front, lines) + [l.tag] else Tags(front, lines)
  {
    var front, w := order[..|order| - 1], order[|order| - 1];
    assert order == front + [w];
    TagsAppend(front, [w], lines);
    TagsCons(w, [], lines);
    assert [w] + [] == [w];
  }

  lemma TakeOver(t: nat, f: seq<nat>, tags: seq<nat>, n: nat)
    requires (tags == f && |f| <= n) || (|tags| == n + 1 && tags[..n] == f)
    ensures Take([t] + tags, n + 1) == [t] + f
  {
  }

  /** Replacing the last line: its tag, if valid, falls off the end. */
  lemma TailToHead(order: seq<nat>, lines: seq<Line>, lines': seq<Line>)
    requires ValidPrefix(order, lines) && Distinct(order) && order != []
    requires var w := order[|order| - 1];
             |lines'| == |lines| && lines'[w].valid && lines' == lines[w := lines'[w]]
    ensures var w := order[|order| - 1];
            && InLines(ToHead(order, w), lines')
            && Tags(ToHead(order, w), lines') == Take([lines'[w].tag] + Tags(order, lines), |order|)
  {
    var n := |order| - 1;
    var w, front := order[n], order[..n];
    assert ToHead(order, w) == [w] + front by { IndexOfUnique(order, n); }
    assert Tags(front, lines) == Tags(front, lines') by { TagsFrame(front, lines, lines'); }
    TagsCons(w, front, lines');
    LastTag(order, lines);
    FullWhenLastValid(order, lines);
    TakeOver(lines'[w].tag, Tags(front, lines), Tags(order, lines), n);
  }

  /** A full way list whose last line is refilled, and which goes to the head. */
  lemma TailRefilled(ws: WaySet, ws': WaySet, n: nat, tag: nat)
    requires Perm(ws.order, n) && |ws.lines| == |ws'.lines| == n > 0 && ValidPrefix(ws.order, ws.lines)
    requires var w := ws.order[n - 1];
             && ws'.order == ToHead(ws.order, w) && ws'.lines == ws.lines[w := ws'.lines[w]]
             && ws'.lines[w].valid && ws'.lines[w].tag == tag
    ensures ValidPrefix(ws'.order, ws'.lines)
    ensures Tags(ws'.order, ws'.lines) == Take([tag] + Tags(ws.order, ws.lines), n)
  {
    var w := ws.order[n - 1];
    MovePrefix(ws.order, ws.lines, w, ws'.lines[w]);
    TailToHead(ws.order, ws.lines, ws'.lines);
  }

  lemma MissTags(c: Config, s: State, i: nat, tag: nat, o: nat, cmd: Cmd, now: int)
    requires Ordered(c, s) && IsBlock(c, tag, i) && o + cmd.Size() <= c.bsize && !c.policy.Random?
    ensures var s' := Miss(c, s, i, tag, o, cmd, now).state;
            && OnlySet(c, s, s', i)
            && ValidPrefix(s'.sets[i].order, s'.sets[i].lines)
            && SetTags(c, s', i) == Take([tag] + SetTags(c, s, i), c.assoc)
  {
    MissLines(c, s, i, tag, o, cmd, now);
    assert SetShape(c, i, s.sets[i]);
    TailRefilled(s.sets[i], Miss(c, s, i, tag, o, cmd, now).state.sets[i], c.assoc, tag);
  }

  /** Moving a line to the tail and invalidating it removes its tag. */
  lemma {:induction false} RetiredTags(order: seq<nat>, lines: seq<Line>, lines': seq<Line>, w: nat)
    requires InLines(order, lines) && Distinct(order) && w in order && UniqueTags(lines) && w < |lines|
    requires |lines'| == |lines| && lines[w].valid && !lines'[w].valid && lines' == lines[w := lines'[w]]
    ensures InLines(ToTail(order, w), lines')
    ensures Tags(ToTail(order, w), lines') == Remove(Tags(order, lines), lines[w].tag)
  {
    var rest := Remove(order, w);
    TagsRemove(order, lines, w);
    RestFrame(order, lines, lines', w);
    TagsAppend(rest, [w], lines');
    LastTag(rest + [w], lines');
    assert (rest + [w])[..|rest|] == rest;
  }

  lemma {:induction false} RestFrame(order: seq<nat>, lines: seq<Line>, lines': seq<Line>, w: nat)
    requires InLines(order, lines) && Distinct(order) && w in order && w < |lines|
    requires |lines'| == |lines| && lines' == lines[w := lines'[w]]
    ensures InLines(Remove(order, w), lines) && InLines(Remove(order, w), lines')
    ensures Tags(Remove(order, w), lines) == Tags(Remove(order, w), lines')
  {
    var rest := Remove(order, w);
    RemoveDistinct(order, w);
    assert forall k :: 0 <= k < |rest| ==> rest[k] in rest;
    TagsFrame(rest, lines, lines');
  }

  lemma DropTags(c: Config, s: State, i: nat, w: nat)
    requires Ordered(c, s) && i < c.nsets && w < c.assoc && s.sets[i].lines[w].valid
    ensures var s' := MoveToTail(c, Invalidate(c, s, i, w), i, w);
            && OnlySet(c, s, s', i)
            && ValidPrefix(s'.sets[i].order, s'.sets[i].lines)
            && SetTags(c, s', i) == Remove(SetTags(c, s, i), s.sets[i].lines[w].tag)
  {
    var s', ws := MoveToTail(c, Invalidate(c, s, i, w), i, w), s.sets[i];
    var l' := ws.lines[w].(valid := false);
    Covers(ws.order, c.assoc, w);
    assert s'.sets[i] == WaySet(ToTail(ws.order, w), ws.lines[w := l']);
    MovePrefix(ws.order, ws.lines, w, l');
    RetiredTags(ws.order, ws.lines, ws.lines[w := l'], w);
  }

  // ---- every operation ----

  lemma AccessTags(c: Config, s: State, cmd: Cmd, addr: nat, now: int)
    requires Ordered(c, s) && addr < SPACE && !c.policy.Random? && CacheAccess(c, s, cmd, addr, now).Done?
    ensures var s', i, t := CacheAccess(c, s, cmd, addr, now).state, AddrSet(c, addr), AddrTag(c, addr);
            && OnlySet(c, s, s', i)
            && ValidPrefix(s'.sets[i].order, s'.sets[i].lines)
            && SetTags(c, s', i) == (if c.policy.FIFO? && t in SetTags(c, s, i) then SetTags(c, s, i)
                                     else Take(ToHead(SetTags(c, s, i), t), c.assoc))
            && s'.hits == s.hits + (if t in SetTags(c, s, i) then 1 else 0)
  {
    AddressSplit(c, addr);
    var b, o, t, i := addr / c.bsize, addr % c.bsize, AddrTag(c, addr), AddrSet(c, addr);
    var w := FindWay(s.sets[i].lines, t);
    TagsFind(c, i, s.sets[i], t);
    if w < c.assoc {
      HitTags(c, s, i, w, b, o, cmd, now);
    } else {
      MissTags(c, s, i, t, o, cmd, now);
      assert ToHead(SetTags(c, s, i), t) == [t] + SetTags(c, s, i);
      MissHits(c, s, i, t, o, cmd, now);
    }
  }

  lemma MissHits(c: Config, s: State, i: nat, tag: nat, o: nat, cmd: Cmd, now: int)
    requires Shape(c, s) && IsBlock(c, tag, i) && o + cmd.Size() <= c.bsize
    ensures Miss(c, s, i, tag, o, cmd, now).state.hits == s.hits
  {
  }

  lemma {:induction false} NoTags(order: seq<nat>, lines: seq<Line>)
    requires InLines(order, lines) && AllInvalid(lines)
    ensures Tags(order, lines) == [] && ValidPrefix(order, lines)
  {
    if order != [] {
      NoTags(order[1..], lines);
    }
  }

  lemma FlushTags(c: Config, s: State, j: nat)
    requires Shape(c, s) && j < c.nsets
    ensures var s' := CacheFlush(c, s).state;
            SetTags(c, s', j) == [] && ValidPrefix(s'.sets[j].order, s'.sets[j].lines) && s'.hits == s.hits
  {
    var s1 := s.(last := None);
    FlushSetsEffect(c, s1, c.nsets);
    FlushSetsHits(c, s1, c.nsets);
    var s' := CacheFlush(c, s).state;
    assert SetShape(c, j, s'.sets[j]);
    NoTags(s'.sets[j].order, s'.sets[j].lines);
  }

  lemma {:induction false} FlushWaysHits(c: Config, s: State, i: nat, k: nat)
    requires Shape(c, s) && i < c.nsets && k <= c.assoc
    ensures FlushWays(c, s, i, k).hits == s.hits
  {
    if k > 0 {
      FlushWaysHits(c, s, i, k - 1);
    }
  }

  lemma {:induction false} FlushSetsHits(c: Config, s: State, i: nat)
    requires Shape(c, s) && i <= c.nsets
    ensures FlushSets(c, s, i).hits == s.hits
  {
    if i > 0 {
      FlushSetsHits(c, s, i - 1);
      FlushWaysHits(c, FlushSets(c, s, i - 1), i - 1, c.assoc);
    }
  }

  lemma FlushAddrTags(c: Config, s: State, addr: nat)
    requires Ordered(c, s) && addr < SPACE
    ensures var s', i, t := CacheFlushAddr(c, s, addr).state, AddrSet(c, addr), AddrTag(c, addr);
            && OnlySet(c, s, s', i)
            && ValidPrefix(s'.sets[i].order, s'.sets[i].lines)
            && SetTags(c, s', i) == Remove(SetTags(c, s, i), t)
            && s'.hits == s.hits
  {
    var i, t := AddrSet(c, addr), AddrTag(c, addr);
    var w := FindWay(s.sets[i].lines, t);
    TagsFind(c, i, s.sets[i], t);
    if w < c.assoc {
      var s1 := s.(last := None);
      SameDataView(c, s, s1);
      DropTags(c, s1, i, w);
    }
  }

  // ---- runs ----

  lemma StepOrdered(c: Config, s: State, op: Op)
    requires Ordered(c, s) && OpOk(op) && !c.policy.Random? && Step(c, s, op).Done?
    requires Inv(c, Step(c, s, op).state)
    ensures Ordered(c, Step(c, s, op).state)
  {
    var s' := Step(c, s, op).state;
    match op
    case Access(cmd, addr, now) => AccessTags(c, s, cmd, addr, now);
    case Flush(_) =>
      forall j | 0 <= j < c.nsets
        ensures ValidPrefix(s'.sets[j].order, s'.sets[j].lines)
      {
        FlushTags(c, s, j);
      }
    case FlushAddr(addr, _) => FlushAddrTags(c, s, addr);
  }

  /** Under LRU and FIFO the valid lines of every set come first in its way
      list in every reachable state, so a valid line is replaced only when the
      whole set is valid. */
  lemma {:induction false} RunOrdered(c: Config, mem: seq<Byte>, ops: seq<Op>)
    requires ValidConfig(c) && |mem| == SPACE && OpsOk(ops) && !c.policy.Random?
    requires Run(c, Initial(c, mem), ops).Ran?
    ensures Ordered(c, Run(c, Initial(c, mem), ops).state)
  {
    RunCoherent(c, mem, ops);
    if ops != [] {
      RunOrdered(c, mem, ops[..|ops| - 1]);
      StepOrdered(c, Run(c, Initial(c, mem), ops[..|ops| - 1]).state, ops[|ops| - 1]);
    }
  }

  lemma {:induction false} ReplacedOnlyWhenFull(c: Config, mem: seq<Byte>, ops: seq<Op>, i: nat, w: nat)
    requires ValidConfig(c) && |mem| == SPACE && OpsOk(ops) && !c.policy.Random?
    requires Run(c, Initial(c, mem), ops).Ran? && i < c.nsets && w < c.assoc
    requires var s := Run(c, Initial(c, mem), ops).state; s.sets[i].lines[Victim(c, s, i)].valid
    ensures Run(c, Initial(c, mem), ops).state.sets[i].lines[w].valid
  {
    RunOrdered(c, mem, ops);
    LastValidAllValid(c, i, Run(c, Initial(c, mem), ops).state.sets[i], w);
  }

  lemma LastValidAllValid(c: Config, i: nat, ws: WaySet, w: nat)
    requires ValidConfig(c) && SetShape(c, i, ws) && ValidPrefix(ws.order, ws.lines) && w < c.assoc
    requires ws.lines[ws.order[c.assoc - 1]].valid
    ensures ws.lines[w].valid
  {
    Covers(ws.order, c.assoc, w);
    var k :| 0 <= k < c.assoc && ws.order[k] == w;
  }

  // ---- inclusion ----

  lemma PrefixRemove(p: seq<nat>, q: seq<nat>, t: nat)
    requires p <= q && Distinct(q)
    ensures Remove(p, t) <= Remove(q, t)
  {
    var k, m := IndexOf(p, t), IndexOf(q, t);
    if k < |p| {
      assert q[k] == t;
      IndexOfUnique(q, k);
    }
  }

  lemma PrefixToHead(p: seq<nat>, q: seq<nat>, t: nat, k: nat, k': nat)
    requires p <= q && Distinct(q) && k <= k' && |p| <= k && |q| <= k'
    ensures Take(ToHead(p, t), k) <= Take(ToHead(q, t), k')
  {
    PrefixRemove(p, q, t);
    var a, b := ToHead(p, t), ToHead(q, t);
    assert a <= b;
    assert Take(a, k) <= b && |Take(a, k)| <= k';
  }

  lemma {:induction false} TagsDistinct(order: seq<nat>, lines: seq<Line>)
    requires InLines(order, lines) && Distinct(order) && UniqueTags(lines)
    ensures Distinct(Tags(order, lines))
  {
    if order != [] {
      TagsDistinct(order[1..], lines);
      var w := order[0];
      if lines[w].valid {
        TagsMember(order[1..], lines, lines[w].tag);
        assert lines[w].tag !in Tags(order[1..], lines);
      }
    }
  }

  /** Two LRU caches over the same sets and blocks, the second at least as associative. */
  ghost predicate Comparable(c: Config, c': Config) {
    && ValidConfig(c) && ValidConfig(c')
    && c.nsets == c'.nsets && c.bsize == c'.bsize && c.assoc <= c'.assoc
    && c.policy.LRU? && c'.policy.LRU?
  }

  ghost predicate Included(c: Config, s: State, c': Config, s': State)
    requires Comparable(c, c') && Shape(c, s) && Shape(c', s')
  {
    && (forall j :: 0 <= j < c.nsets ==> SetTags(c, s, j) <= SetTags(c', s', j))
    && s.hits <= s'.hits
  }

  lemma SameAddress(c: Config, c': Config, addr: nat)
    requires Comparable(c, c')
    ensures AddrSet(c, addr) == AddrSet(c', addr) && AddrTag(c, addr) == AddrTag(c', addr)
  {
  }

  /** Both caches changed one set, whose tags are still included. */
  lemma IncludedUpdate(c: Config, s: State, r: State, c': Config, s': State, r': State, i: nat)
    requires Comparable(c, c') && Shape(c, s) && Shape(c', s') && Included(c, s, c', s') && i < c.nsets
    requires Shape(c, r) && Shape(c', r') && OnlySet(c, s, r, i) && OnlySet(c', s', r', i)
    requires SetTags(c, r, i) <= SetTags(c', r', i) && r.hits <= r'.hits
    ensures Included(c, r, c', r')
  {
    forall j | 0 <= j < c.nsets && j != i
      ensures SetTags(c, r, j) <= SetTags(c', r', j)
    {
      assert SetTags(c, s, j) <= SetTags(c', s', j);
    }
  }

  lemma AccessIncluded(c: Config, s: State, c': Config, s': State, cmd: Cmd, addr: nat, now: int)
    requires Comparable(c, c') && Ordered(c, s) && Ordered(c', s') && Included(c, s, c', s') && addr < SPACE
    requires CacheAccess(c, s, cmd, addr, now).Done? && CacheAccess(c', s', cmd, addr, now).Done?
    ensures Included(c, CacheAccess(c, s, cmd, addr, now).state, c', CacheAccess(c', s', cmd, addr, now).state)
  {
    SameAddress(c, c', addr);
    var i, t := AddrSet(c, addr), AddrTag(c, addr);
    AccessTags(c, s, cmd, addr, now);
    AccessTags(c', s', cmd, addr, now);
    TagsDistinct(s'.sets[i].order, s'.sets[i].lines);
    PrefixToHead(SetTags(c, s, i), SetTags(c', s', i), t, c.assoc, c'.assoc);
    IncludedUpdate(c, s, CacheAccess(c, s, cmd, addr, now).state, c', s', CacheAccess(c', s', cmd, addr, now).state, i);
  }

  lemma FlushAddrIncluded(c: Config, s: State, c': Config, s': State, addr: nat)
    requires Comparable(c, c') && Ordered(c, s) && Ordered(c', s') && Included(c, s, c', s') && addr < SPACE
    ensures Included(c, CacheFlushAddr(c, s, addr).state, c', CacheFlushAddr(c', s', addr).state)
  {
    SameAddress(c, c', addr);
    var i, t := AddrSet(c, addr), AddrTag(c, addr);
    FlushAddrTags(c, s, addr);
    FlushAddrTags(c', s', addr);
    TagsDistinct(s'.sets[i].order, s'.sets[i].lines);
    PrefixRemove(SetTags(c, s, i), SetTags(c', s', i), t);
    IncludedUpdate(c, s, CacheFlushAddr(c, s, addr).state, c', s', CacheFlushAddr(c', s', addr).state, i);
  }

  lemma FlushIncluded(c: Config, s: State, c': Config, s': State)
    requires Comparable(c, c') && Shape(c, s) && Shape(c', s') && s.hits <= s'.hits
    ensures Included(c, CacheFlush(c, s).state, c', CacheFlush(c', s').state)
  {
    forall j | 0 <= j < c.nsets
      ensures SetTags(c, CacheFlush(c, s).state, j) <= SetTags(c', CacheFlush(c', s').state, j)
    {
      FlushTags(c, s, j);
      FlushTags(c', s', j);
    }
    FlushTags(c, s, 0);
    FlushTags(c', s', 0);
  }

  /** LRU inclusion.  Run the same trace of accesses, flushes and address
      flushes through both caches, whatever their memories, latencies and
      search structures: in every set the small cache's valid tags are a prefix
      of the large one's, and the small cache has no more hits. */
  lemma {:induction false} LruInclusion(c: Config, mem: seq<Byte>, c': Config, mem': seq<Byte>, ops: seq<Op>)
    requires Comparable(c, c') && |mem| == SPACE && |mem'| == SPACE && OpsOk(ops)
    requires Run(c, Initial(c, mem), ops).Ran? && Run(c', Initial(c', mem'), ops).Ran?
    ensures Included(c, Run(c, Initial(c, mem), ops).state, c', Run(c', Initial(c', mem'), ops).state)
  {
    if ops == [] {
      forall j | 0 <= j < c.nsets
        ensures SetTags(c, Initial(c, mem), j) == []
      {
        NoTags(Initial(c, mem).sets[j].order, Initial(c, mem).sets[j].lines);
      }
    } else {
      var front, op := ops[..|ops| - 1], ops[|ops| - 1];
      LruInclusion(c, mem, c', mem', front);
      RunOrdered(c, mem, front);
      RunOrdered(c', mem', front);
      var s, s' := Run(c, Initial(c, mem), front).state, Run(c', Initial(c', mem'), front).state;
      match op
      case Access(cmd, addr, now) => AccessIncluded(c, s, c', s', cmd, addr, now);
      case Flush(_) => FlushIncluded(c, s, c', s');
      case FlushAddr(addr, _) => FlushAddrIncluded(c, s, c', s', addr);
    }
  }

  /** Hence every address that would hit in the small cache would hit in the large one. */
  lemma {:induction false} HitsCarryOver(c: Config, mem: seq<Byte>, c': Config, mem': seq<Byte>, ops: seq<Op>,
                                         addr: nat)
    requires Comparable(c, c') && |mem| == SPACE && |mem'| == SPACE && OpsOk(ops) && addr < SPACE
    requires Run(c, Initial(c, mem), ops).Ran? && Run(c', Initial(c', mem'), ops).Ran?
    ensures FindWay(Run(c, Initial(c, mem), ops).state.sets[AddrSet(c, addr)].lines, AddrTag(c, addr)) < c.assoc ==>
            FindWay(Run(c', Initial(c', mem'), ops).state.sets[AddrSet(c', addr)].lines, AddrTag(c', addr)) < c'.assoc
  {
    LruInclusion(c, mem, c', mem', ops);
    SameAddress(c, c', addr);
    var i, t := AddrSet(c, addr), AddrTag(c, addr);
    var s, s' := Run(c, Initial(c, mem), ops).state, Run(c', Initial(c', mem'), ops).state;
    TagsFind(c, i, s.sets[i], t);
    TagsFind(c', i, s'.sets[i], t);
    assert SetTags(c, s, i) <= SetTags(c', s', i);
  }
}
