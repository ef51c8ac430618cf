/** A cache is invisible: every run returns what a flat memory would return. */
module CacheTransparency {
  import opened Pow2
  import opened FlatMemory
  import opened Recency
  import opened CacheModel
  import opened Options

  ghost predicate UniqueTags(lines: seq<Line>) {
    forall v, w :: 0 <= v < w < |lines| && lines[v].valid && lines[w].valid ==> lines[v].tag != lines[w].tag
  }

  /** A valid line that is not dirty equals its block in memory. */
  ghost predicate CleanSet(c: Config, s: State, i: nat)
    requires Shape(c, s) && i < c.nsets
  {
    forall w :: 0 <= w < c.assoc && s.sets[i].lines[w].valid && !s.sets[i].lines[w].dirty ==>
      s.sets[i].lines[w].data == BlockOf(c, s, MkBlock(c, s.sets[i].lines[w].tag, i))
  }

  ghost predicate Inv(c: Config, s: State) {
    && Shape(c, s)
    && (forall i :: 0 <= i < c.nsets ==> UniqueTags(s.sets[i].lines))
    && (forall i :: 0 <= i < c.nsets ==> CleanSet(c, s, i))
  }

  ghost predicate IsBlock(c: Config, t: nat, j: nat)
    requires ValidConfig(c)
  {
    j < c.nsets && MkBlock(c, t, j) < NumBlocks(c)
  }

  /** What a reader of the block with tag t in set j gets. */
  ghost function View(c: Config, s: State, t: nat, j: nat): (d: seq<Byte>)
    requires Shape(c, s) && IsBlock(c, t, j)
    ensures |d| == c.bsize
  {
    var lines := s.sets[j].lines;
    var w := FindWay(lines, t);
    if w < c.assoc then lines[w].data else BlockOf(c, s, MkBlock(c, t, j))
  }

  lemma BlockParts(c: Config, t: nat, j: nat, t': nat, j': nat)
    requires ValidConfig(c) && j < c.nsets && j' < c.nsets
    ensures MkBlock(c, t, j) == MkBlock(c, t', j') <==> t == t' && j == j'
  {
    DivModUnique(MkBlock(c, t, j), c.nsets, t, j);
    DivModUnique(MkBlock(c, t', j'), c.nsets, t', j');
  }

  lemma {:induction false} FindAgrees(lines: seq<Line>, lines': seq<Line>, tag: nat)
    requires |lines| == |lines'|
    requires forall j :: 0 <= j < |lines| ==> Matches(lines[j], tag) == Matches(lines'[j], tag)
    ensures FindWay(lines, tag) == FindWay(lines', tag)
  {
    var k, k' := FindWay(lines, tag), FindWay(lines', tag);
    assert k < |lines| ==> Matches(lines'[k], tag);
    assert k' < |lines| ==> Matches(lines[k'], tag);
  }

  lemma {:induction false} FindUnique(lines: seq<Line>, w: nat)
    requires UniqueTags(lines) && w < |lines| && lines[w].valid
    ensures FindWay(lines, lines[w].tag) == w
  {
  }

  lemma {:induction false} FindOnly(lines: seq<Line>, tag: nat, w: nat)
    requires w < |lines| && Matches(lines[w], tag)
    requires forall v :: 0 <= v < |lines| && v != w ==> !Matches(lines[v], tag)
    ensures FindWay(lines, tag) == w
  {
    var k := FindWay(lines, tag);
    assert k < |lines| ==> Matches(lines[k], tag);
  }

  // ---- Drop ----

  lemma DropMemory(c: Config, s: State, i: nat, w: nat, t: nat, j: nat)
    requires Shape(c, s) && i < c.nsets && w < c.assoc && IsBlock(c, t, j)
    ensures var l, b := s.sets[i].lines[w], MkBlock(c, t, j);
            BlockOf(c, Drop(c, s, i, w), b)
              == if l.valid && l.dirty && t == l.tag && j == i then l.data else BlockOf(c, s, b)
  {
    var l, b := s.sets[i].lines[w], MkBlock(c, t, j);
    BlockParts(c, t, j, l.tag, i);
    InRange(c, b);
    InRange(c, MkBlock(c, l.tag, i));
    ReadAfterWrite(s.mem, c.bsize, MkBlock(c, l.tag, i), l.data, b);
  }

  lemma DropView(c: Config, s: State, i: nat, w: nat, t: nat, j: nat)
    requires Inv(c, s) && i < c.nsets && w < c.assoc && IsBlock(c, t, j)
    ensures View(c, Drop(c, s, i, w), t, j) == View(c, s, t, j)
  {
    var s', l := Drop(c, s, i, w), s.sets[i].lines[w];
    DropMemory(c, s, i, w, t, j);
    var lines, lines' := s.sets[j].lines, s'.sets[j].lines;
    if j == i && Matches(l, t) {
      FindUnique(lines, w);
      assert CleanSet(c, s, i);
      assert FindWay(lines', t) == c.assoc;
    } else {
      FindAgrees(lines, lines', t);
    }
  }

  lemma DropInv(c: Config, s: State, i: nat, w: nat)
    requires Inv(c, s) && i < c.nsets && w < c.assoc
    ensures Inv(c, Drop(c, s, i, w))
  {
    var s', l := Drop(c, s, i, w), s.sets[i].lines[w];
    forall j, v | 0 <= j < c.nsets && 0 <= v < c.assoc && s'.sets[j].lines[v].valid && !s'.sets[j].lines[v].dirty
      ensures s'.sets[j].lines[v].data == BlockOf(c, s', MkBlock(c, s'.sets[j].lines[v].tag, j))
    {
      var m := s.sets[j].lines[v];
      DropMemory(c, s, i, w, m.tag, j);
      assert CleanSet(c, s, j) && UniqueTags(s.sets[j].lines);
    }
  }

  // ---- Fill ----

  lemma {:induction false} FillView(c: Config, s: State, i: nat, w: nat, tag: nat, ready: int, t: nat, j: nat)
    requires Inv(c, s) && w < c.assoc && IsBlock(c, tag, i) && IsBlock(c, t, j)
    requires !s.sets[i].lines[w].valid && FindWay(s.sets[i].lines, tag) == c.assoc
    ensures View(c, Fill(c, s, i, w, tag, ready), t, j) == View(c, s, t, j)
  {
    var s' := Fill(c, s, i, w, tag, ready);
    var lines, lines' := s.sets[j].lines, s'.sets[j].lines;
    if j == i && t == tag {
      FindOnly(lines', t, w);
    } else {
      FindAgrees(lines, lines', t);
    }
  }

  lemma {:induction false} FillInv(c: Config, s: State, i: nat, w: nat, tag: nat, ready: int)
    requires Inv(c, s) && w < c.assoc && IsBlock(c, tag, i)
    requires !s.sets[i].lines[w].valid && FindWay(s.sets[i].lines, tag) == c.assoc
    ensures Inv(c, Fill(c, s, i, w, tag, ready))
  {
    var s' := Fill(c, s, i, w, tag, ready);
    forall j | 0 <= j < c.nsets
      ensures UniqueTags(s'.sets[j].lines) && CleanSet(c, s', j)
    {
      assert CleanSet(c, s, j) && UniqueTags(s.sets[j].lines);
    }
  }

  // ---- Touch ----

  /** A write replaces bytes of the one block it hits, whose view it owns. */
  lemma TouchView(c: Config, s: State, i: nat, w: nat, o: nat, cmd: Cmd, t: nat, j: nat)
    requires Inv(c, s) && i < c.nsets && w < c.assoc && o + cmd.Size() <= c.bsize && IsBlock(c, t, j)
    requires s.sets[i].lines[w].valid
    ensures View(c, Touch(c, s, i, w, o, cmd), t, j)
              == if cmd.Write? && t == s.sets[i].lines[w].tag && j == i then Splice(View(c, s, t, j), o, cmd.bytes)
                 else View(c, s, t, j)
  {
    var s', l := Touch(c, s, i, w, o, cmd), s.sets[i].lines[w];
    var lines, lines' := s.sets[j].lines, s'.sets[j].lines;
    FindUnique(s.sets[i].lines, w);
    FindAgrees(lines, lines', t);
    if j == i && t != l.tag {
      assert FindWay(lines, t) != w;
    }
  }

  lemma TouchInv(c: Config, s: State, i: nat, w: nat, o: nat, cmd: Cmd)
    requires Inv(c, s) && i < c.nsets && w < c.assoc && o + cmd.Size() <= c.bsize
    ensures Inv(c, Touch(c, s, i, w, o, cmd))
  {
    var s' := Touch(c, s, i, w, o, cmd);
    forall j | 0 <= j < c.nsets
      ensures UniqueTags(s'.sets[j].lines) && CleanSet(c, s', j)
    {
      assert CleanSet(c, s, j) && UniqueTags(s.sets[j].lines);
    }
  }

  // ---- states that differ only in bookkeeping ----

  ghost predicate SameBlock(c: Config, s: State, s': State, t: nat, j: nat)
    requires Shape(c, s) && Shape(c, s')
  {
    IsBlock(c, t, j) ==> View(c, s', t, j) == View(c, s, t, j)
  }

  /** Same lines and memory; order, counters and bus are free. */
  ghost predicate SameData(c: Config, s: State, s': State) {
    && Shape(c, s) && Shape(c, s') && s.mem == s'.mem
    && forall i :: 0 <= i < c.nsets ==> s.sets[i].lines == s'.sets[i].lines
  }

  lemma SameDataView(c: Config, s: State, s': State)
    requires SameData(c, s, s') && Inv(c, s)
    ensures Inv(c, s')
    ensures forall t: nat, j: nat :: SameBlock(c, s, s', t, j)
  {
    forall i | 0 <= i < c.nsets
      ensures CleanSet(c, s', i)
    {
      assert CleanSet(c, s, i);
    }
  }

  // ---- coherence with a flat memory ----

  /** The cache and its memory together stand for the flat memory f. */
  ghost predicate Coherent(c: Config, s: State, f: seq<Byte>) {
    && Inv(c, s)
    && |f| == SPACE
    && forall t: nat, j: nat :: Agrees(c, s, f, t, j)
  }

  ghost predicate Agrees(c: Config, s: State, f: seq<Byte>, t: nat, j: nat)
    requires Shape(c, s) && |f| == SPACE
  {
    IsBlock(c, t, j) ==> View(c, s, t, j) == FlatBlock(c, f, t, j)
  }

  ghost function FlatBlock(c: Config, f: seq<Byte>, t: nat, j: nat): seq<Byte>
    requires ValidConfig(c) && |f| == SPACE && IsBlock(c, t, j)
  {
    InRange(c, MkBlock(c, t, j));
    ReadBlock(f, c.bsize, MkBlock(c, t, j))
  }

  lemma CoherentStep(c: Config, s: State, s': State, f: seq<Byte>)
    requires Coherent(c, s, f) && Inv(c, s')
    requires forall t: nat, j: nat :: SameBlock(c, s, s', t, j)
    ensures Coherent(c, s', f)
  {
    forall t: nat, j: nat
      ensures Agrees(c, s', f, t, j)
    {
      assert SameBlock(c, s, s', t, j) && Agrees(c, s, f, t, j);
    }
  }

  lemma SameDataCoherent(c: Config, s: State, s': State, f: seq<Byte>)
    requires Coherent(c, s, f) && SameData(c, s, s')
    ensures Coherent(c, s', f)
  {
    SameDataView(c, s, s');
    CoherentStep(c, s, s', f);
  }

  lemma DropCoherent(c: Config, s: State, i: nat, w: nat, f: seq<Byte>)
    requires Coherent(c, s, f) && i < c.nsets && w < c.assoc
    ensures Coherent(c, Drop(c, s, i, w), f)
  {
    DropInv(c, s, i, w);
    var s' := Drop(c, s, i, w);
    forall t: nat, j: nat
      ensures SameBlock(c, s, s', t, j)
    {
      if IsBlock(c, t, j) {
        DropView(c, s, i, w, t, j);
      }
    }
    CoherentStep(c, s, s', f);
  }

  lemma {:induction false} FillCoherent(c: Config, s: State, i: nat, w: nat, tag: nat, ready: int, f: seq<Byte>)
    requires Coherent(c, s, f) && w < c.assoc && IsBlock(c, tag, i)
    requires !s.sets[i].lines[w].valid && FindWay(s.sets[i].lines, tag) == c.assoc
    ensures Coherent(c, Fill(c, s, i, w, tag, ready), f)
  {
    FillInv(c, s, i, w, tag, ready);
    var s' := Fill(c, s, i, w, tag, ready);
    forall t: nat, j: nat
      ensures SameBlock(c, s, s', t, j)
    {
      if IsBlock(c, t, j) {
        FillView(c, s, i, w, tag, ready, t, j);
      }
    }
    CoherentStep(c, s, s', f);
  }

  /** The effect of a command on the flat memory. */
  ghost function FlatWrite(f: seq<Byte>, addr: nat, cmd: Cmd): (f': seq<Byte>)
    requires addr + cmd.Size() <= |f|
    ensures |f'| == |f|
  {
    if cmd.Read? then f else Splice(f, addr, cmd.bytes)
  }

  lemma TouchCoherent(c: Config, s: State, i: nat, w: nat, o: nat, cmd: Cmd, f: seq<Byte>, a: nat)
    requires Coherent(c, s, f) && i < c.nsets && w < c.assoc && o + cmd.Size() <= c.bsize
    requires s.sets[i].lines[w].valid && a == MkBlock(c, s.sets[i].lines[w].tag, i) * c.bsize
    ensures a + o + cmd.Size() <= SPACE
    ensures Coherent(c, Touch(c, s, i, w, o, cmd), FlatWrite(f, a + o, cmd))
  {
    var tag := s.sets[i].lines[w].tag;
    InRange(c, MkBlock(c, tag, i));
    var s', f' := Touch(c, s, i, w, o, cmd), FlatWrite(f, a + o, cmd);
    TouchInv(c, s, i, w, o, cmd);
    forall t: nat, j: nat
      ensures Agrees(c, s', f', t, j)
    {
      TouchAgrees(c, s, i, w, o, cmd, f, a, t, j);
    }
  }

  lemma {:induction false} TouchAgrees(c: Config, s: State, i: nat, w: nat, o: nat, cmd: Cmd, f: seq<Byte>, a: nat,
                                       t: nat, j: nat)
    requires Coherent(c, s, f) && i < c.nsets && w < c.assoc && o + cmd.Size() <= c.bsize
    requires s.sets[i].lines[w].valid && a == MkBlock(c, s.sets[i].lines[w].tag, i) * c.bsize
    requires a + o + cmd.Size() <= SPACE
    ensures Agrees(c, Touch(c, s, i, w, o, cmd), FlatWrite(f, a + o, cmd), t, j)
  {
    if IsBlock(c, t, j) {
      var tag := s.sets[i].lines[w].tag;
      var mine := t == tag && j == i;
      assert View(c, s, t, j) == FlatBlock(c, f, t, j) by { assert Agrees(c, s, f, t, j); }
      assert View(c, Touch(c, s, i, w, o, cmd), t, j) == Written(cmd, mine, o, View(c, s, t, j)) by {
        TouchView(c, s, i, w, o, cmd, t, j);
      }
      assert FlatBlock(c, FlatWrite(f, a + o, cmd), t, j) == Written(cmd, mine, o, FlatBlock(c, f, t, j)) by {
        FlatWriteBlock(c, f, tag, i, o, cmd, t, j);
      }
    }
  }

  /** A block after a command that may be for it. */
  ghost function Written(cmd: Cmd, mine: bool, o: nat, d: seq<Byte>): seq<Byte>
    requires o + cmd.Size() <= |d|
  {
    if cmd.Write? && mine then Splice(d, o, cmd.bytes) else d
  }

  /** A valid line holds what the flat memory holds. */
  lemma LineReads(c: Config, s: State, i: nat, w: nat, o: nat, n: nat, f: seq<Byte>, a: nat)
    requires Coherent(c, s, f) && i < c.nsets && w < c.assoc && o + n <= c.bsize
    requires s.sets[i].lines[w].valid && a == MkBlock(c, s.sets[i].lines[w].tag, i) * c.bsize
    ensures a + o + n <= SPACE && s.sets[i].lines[w].data[o..o + n] == f[a + o..a + o + n]
  {
    var l := s.sets[i].lines[w];
    InRange(c, MkBlock(c, l.tag, i));
    FindUnique(s.sets[i].lines, w);
    assert Agrees(c, s, f, l.tag, i) && IsBlock(c, l.tag, i);
    assert l.data == f[a..a + c.bsize];
    SliceOfSlice(f, a, c.bsize, o, n);
  }

  lemma SliceOfSlice(f: seq<Byte>, a: nat, n: nat, o: nat, k: nat)
    requires a + n <= |f| && o + k <= n
    ensures f[a..a + n][o..o + k] == f[a + o..a + o + k]
  {
    var g := f[a..a + n];
    assert forall p :: 0 <= p < n ==> g[p] == f[a + p];
    assert forall q {:trigger g[o..o + k][q]} :: 0 <= q < k ==> g[o..o + k][q] == g[o + q];
  }

  lemma FlatWriteBlock(c: Config, f: seq<Byte>, tag: nat, i: nat, o: nat, cmd: Cmd, t: nat, j: nat)
    requires ValidConfig(c) && |f| == SPACE && IsBlock(c, tag, i) && IsBlock(c, t, j) && o + cmd.Size() <= c.bsize
    ensures MkBlock(c, tag, i) * c.bsize + o + cmd.Size() <= SPACE
    ensures FlatBlock(c, FlatWrite(f, MkBlock(c, tag, i) * c.bsize + o, cmd), t, j)
         == if cmd.Write? && t == tag && j == i then Splice(FlatBlock(c, f, t, j), o, cmd.bytes)
            else FlatBlock(c, f, t, j)
  {
    BlockParts(c, tag, i, t, j);
    InRange(c, MkBlock(c, tag, i));
    InRange(c, MkBlock(c, t, j));
    if cmd.Write? {
      ReadAfterSplice(f, c.bsize, MkBlock(c, tag, i), o, cmd.bytes, MkBlock(c, t, j));
    }
  }

  // ---- the operations ----

  ghost predicate Serves(c: Config, f: seq<Byte>, cmd: Cmd, addr: nat, r: Outcome)
    requires |f| == SPACE && addr + cmd.Size() <= SPACE
  {
    && r.Done?
    && Coherent(c, r.state, FlatWrite(f, addr, cmd))
    && r.reply.data == if cmd.Read? then f[addr..addr + cmd.n] else []
  }

  lemma HitCoherent(c: Config, s: State, i: nat, w: nat, b: nat, o: nat, cmd: Cmd, now: int, f: seq<Byte>, a: nat)
    requires Coherent(c, s, f) && i < c.nsets && w < c.assoc && o + cmd.Size() <= c.bsize
    requires s.sets[i].lines[w].valid && a == MkBlock(c, s.sets[i].lines[w].tag, i) * c.bsize
    ensures a + o + cmd.Size() <= SPACE
    ensures Serves(c, f, cmd, a + o, Hit(c, s, i, w, b, o, cmd, now))
  {
    LineReads(c, s, i, w, o, cmd.Size(), f, a);
    TouchCoherent(c, s, i, w, o, cmd, f, a);
    var s1 := Touch(c, s, i, w, o, cmd);
    SameDataCoherent(c, s1, Hit(c, s, i, w, b, o, cmd, now).state, FlatWrite(f, a + o, cmd));
  }

  lemma EvictCoherent(c: Config, s: State, i: nat, w: nat, now: int, f: seq<Byte>)
    requires Coherent(c, s, f) && i < c.nsets && w < c.assoc
    ensures Coherent(c, Evict(c, s, i, w, now).state, f)
    ensures !Evict(c, s, i, w, now).state.sets[i].lines[w].valid
    ensures forall v :: 0 <= v < c.assoc && v != w ==>
              Evict(c, s, i, w, now).state.sets[i].lines[v] == s.sets[i].lines[v]
  {
    var e, l := Evict(c, s, i, w, now), s.sets[i].lines[w];
    if l.valid {
      var s1 := s.(replacements := s.replacements + 1, busFree := e.state.busFree);
      SameDataCoherent(c, s, s1, f);
      DropCoherent(c, s1, i, w, f);
      assert e.state == Drop(c, s1, i, w);
    }
  }

  lemma {:induction false} EvictMisses(c: Config, s: State, i: nat, w: nat, now: int, tag: nat)
    requires Shape(c, s) && i < c.nsets && w < c.assoc && FindWay(s.sets[i].lines, tag) == c.assoc
    ensures FindWay(Evict(c, s, i, w, now).state.sets[i].lines, tag) == c.assoc
  {
    var lines, lines' := s.sets[i].lines, Evict(c, s, i, w, now).state.sets[i].lines;
    assert forall v :: 0 <= v < c.assoc && v != w ==> lines'[v] == lines[v];
    FindAgrees(lines, lines', tag);
  }

  lemma {:induction false} RefillCoherent(c: Config, s: State, i: nat, w: nat, tag: nat, now: int, f: seq<Byte>)
    requires Coherent(c, s, f) && IsBlock(c, tag, i) && w < c.assoc && FindWay(s.sets[i].lines, tag) == c.assoc
    ensures Coherent(c, Refill(c, s, i, w, tag, now).state, f)
    ensures Matches(Refill(c, s, i, w, tag, now).state.sets[i].lines[w], tag)
  {
    var e := Evict(c, s, i, w, now);
    var lat := e.lat + c.latency(e.state.calls);
    EvictMisses(c, s, i, w, now, tag);
    assert Coherent(c, e.state, f) && !e.state.sets[i].lines[w].valid by { EvictCoherent(c, s, i, w, now, f); }
    assert Coherent(c, Fill(c, e.state, i, w, tag, now + lat), f) by {
      FillCoherent(c, e.state, i, w, tag, now + lat, f);
    }
  }

  lemma {:induction false} MissCoherent(c: Config, s: State, i: nat, tag: nat, o: nat, cmd: Cmd, now: int,
                                        f: seq<Byte>, a: nat)
    requires Coherent(c, s, f) && IsBlock(c, tag, i) && o + cmd.Size() <= c.bsize
    requires FindWay(s.sets[i].lines, tag) == c.assoc && a == MkBlock(c, tag, i) * c.bsize
    ensures a + o + cmd.Size() <= SPACE
    ensures Serves(c, f, cmd, a + o, Miss(c, s, i, tag, o, cmd, now))
  {
    var w, s1 := Victim(c, s, i), MissReordered(c, s, i);
    var s2 := Refill(c, s1, i, w, tag, now).state;
    assert Coherent(c, s2, f) && Matches(s2.sets[i].lines[w], tag) by {
      SameDataCoherent(c, s, s1, f);
      RefillCoherent(c, s1, i, w, tag, now, f);
    }
    LineReads(c, s2, i, w, o, cmd.Size(), f, a);
    TouchCoherent(c, s2, i, w, o, cmd, f, a);
  }

  lemma AccessCoherent(c: Config, s: State, cmd: Cmd, addr: nat, now: int, f: seq<Byte>)
    requires Coherent(c, s, f) && addr < SPACE && CacheAccess(c, s, cmd, addr, now).Done?
    ensures addr + cmd.Size() <= SPACE && Serves(c, f, cmd, addr, CacheAccess(c, s, cmd, addr, now))
  {
    AddressSplit(c, addr);
    var a, o := addr - addr % c.bsize, addr % c.bsize;
    var tag, i := AddrTag(c, addr), AddrSet(c, addr);
    var w := FindWay(s.sets[i].lines, tag);
    assert a + o == addr;
    var r := CacheAccess(c, s, cmd, addr, now);
    if w < c.assoc {
      HitCoherent(c, s, i, w, addr / c.bsize, o, cmd, now, f, a);
      assert r == Hit(c, s, i, w, addr / c.bsize, o, cmd, now);
    } else {
      MissCoherent(c, s, i, tag, o, cmd, now, f, a);
      assert r == Miss(c, s, i, tag, o, cmd, now);
    }
  }

  lemma InvalidateCoherent(c: Config, s: State, i: nat, w: nat, f: seq<Byte>)
    requires Coherent(c, s, f) && i < c.nsets && w < c.assoc
    ensures Coherent(c, Invalidate(c, s, i, w), f)
  {
    var s1 := s.(invalidations := s.invalidations + 1);
    assert Coherent(c, s1, f) by { SameDataCoherent(c, s, s1, f); }
    assert Coherent(c, Drop(c, s1, i, w), f) by { DropCoherent(c, s1, i, w, f); }
  }

  lemma {:induction false} FlushWaysCoherent(c: Config, s: State, i: nat, k: nat, f: seq<Byte>)
    requires Coherent(c, s, f) && i < c.nsets && k <= c.assoc
    ensures Coherent(c, FlushWays(c, s, i, k), f)
  {
    if k > 0 {
      FlushWaysCoherent(c, s, i, k - 1, f);
      InvalidateCoherent(c, FlushWays(c, s, i, k - 1), i, s.sets[i].order[k - 1], f);
    }
  }

  lemma {:induction false} FlushSetsCoherent(c: Config, s: State, i: nat, f: seq<Byte>)
    requires Coherent(c, s, f) && i <= c.nsets
    ensures Coherent(c, FlushSets(c, s, i), f)
  {
    if i > 0 {
      FlushSetsCoherent(c, s, i - 1, f);
      FlushWaysCoherent(c, FlushSets(c, s, i - 1), i - 1, c.assoc, f);
    }
  }

  ghost predicate AllInvalid(lines: seq<Line>) {
    forall w :: 0 <= w < |lines| ==> !lines[w].valid
  }

  /** Ways flushed so far are invalid; other sets are untouched. */
  lemma {:induction false} FlushWaysEffect(c: Config, s: State, i: nat, k: nat)
    requires Shape(c, s) && i < c.nsets && k <= c.assoc
    ensures forall j :: 0 <= j < k ==> !FlushWays(c, s, i, k).sets[i].lines[s.sets[i].order[j]].valid
    ensures forall j :: 0 <= j < c.nsets && j != i ==> FlushWays(c, s, i, k).sets[j] == s.sets[j]
  {
    if k > 0 {
      FlushWaysEffect(c, s, i, k - 1);
    }
  }

  lemma {:induction false} FlushWaysAll(c: Config, s: State, i: nat)
    requires Shape(c, s) && i < c.nsets
    ensures AllInvalid(FlushWays(c, s, i, c.assoc).sets[i].lines)
  {
    FlushWaysEffect(c, s, i, c.assoc);
    var order, lines := s.sets[i].order, FlushWays(c, s, i, c.assoc).sets[i].lines;
    forall w: nat | w < c.assoc
      ensures !lines[w].valid
    {
      Covers(order, c.assoc, w);
      var j :| 0 <= j < c.assoc && order[j] == w;
    }
  }

  lemma {:induction false} FlushSetsEffect(c: Config, s: State, i: nat)
    requires Shape(c, s) && i <= c.nsets
    ensures forall j :: 0 <= j < i ==> AllInvalid(FlushSets(c, s, i).sets[j].lines)
  {
    if i > 0 {
      FlushSetsEffect(c, s, i - 1);
      FlushWaysEffect(c, FlushSets(c, s, i - 1), i - 1, c.assoc);
      FlushWaysAll(c, FlushSets(c, s, i - 1), i - 1);
    }
  }

  lemma FlushedInvalid(c: Config, s: State, j: nat)
    requires Shape(c, s) && j < c.nsets
    ensures AllInvalid(CacheFlush(c, s).state.sets[j].lines)
  {
    FlushSetsEffect(c, s.(last := None), c.nsets);
  }

  lemma FlushStaysCoherent(c: Config, s: State, f: seq<Byte>)
    requires Coherent(c, s, f)
    ensures Coherent(c, CacheFlush(c, s).state, f)
  {
    var s1 := s.(last := None);
    assert Coherent(c, s1, f) by { SameDataCoherent(c, s, s1, f); }
    FlushSetsCoherent(c, s1, c.nsets, f);
  }

  /** A block that is not cached is read from memory. */
  lemma UncachedBlock(c: Config, t: State, f: seq<Byte>, b: nat)
    requires Coherent(c, t, f) && b * c.bsize + c.bsize <= SPACE && AllInvalid(t.sets[b % c.nsets].lines)
    ensures ReadBlock(t.mem, c.bsize, b) == ReadBlock(f, c.bsize, b)
  {
    BelowNumBlocks(c, b);
    var tag, j := b / c.nsets, b % c.nsets;
    assert MkBlock(c, tag, j) == b;
    assert IsBlock(c, tag, j) && Agrees(c, t, f, tag, j);
    assert View(c, t, tag, j) == BlockOf(c, t, b);
  }

  /** After a flush nothing is cached, so memory itself is the flat memory. */
  lemma FlushCoherent(c: Config, s: State, f: seq<Byte>)
    requires Coherent(c, s, f)
    ensures Coherent(c, CacheFlush(c, s).state, f) && CacheFlush(c, s).state.mem == f
  {
    var t := CacheFlush(c, s).state;
    FlushStaysCoherent(c, s, f);
    forall b: nat | b * c.bsize + c.bsize <= SPACE
      ensures ReadBlock(t.mem, c.bsize, b) == ReadBlock(f, c.bsize, b)
    {
      FlushedInvalid(c, s, b % c.nsets);
      UncachedBlock(c, t, f, b);
    }
    SpaceSplits(c);
    SameBlocks(t.mem, f, c.bsize);
  }

  lemma BelowNumBlocks(c: Config, b: nat)
    requires ValidConfig(c) && b * c.bsize + c.bsize <= SPACE
    ensures b < NumBlocks(c)
  {
    BelowQuotient(SPACE, c.bsize, b);
  }

  lemma BelowQuotient(size: nat, d: nat, b: nat)
    requires d > 0 && b * d + d <= size
    ensures b < size / d
  {
    assert size == (size / d) * d + size % d;
    Apart(size / d, b, d);
  }

  lemma FlushAddrCoherent(c: Config, s: State, addr: nat, f: seq<Byte>)
    requires Coherent(c, s, f) && addr < SPACE
    ensures Coherent(c, CacheFlushAddr(c, s, addr).state, f)
  {
    var i := AddrSet(c, addr);
    var w := FindWay(s.sets[i].lines, AddrTag(c, addr));
    if w < c.assoc {
      var s1 := s.(last := None);
      SameDataCoherent(c, s, s1, f);
      InvalidateCoherent(c, s1, i, w, f);
      SameDataCoherent(c, Invalidate(c, s1, i, w), CacheFlushAddr(c, s, addr).state, f);
    }
  }

  // ---- the invariant alone ----

  lemma AccessInv(c: Config, s: State, cmd: Cmd, addr: nat, now: int)
    requires Inv(c, s) && addr < SPACE && CacheAccess(c, s, cmd, addr, now).Done?
    ensures Inv(c, CacheAccess(c, s, cmd, addr, now).state)
  {
    AddressSplit(c, addr);
    var o, tag, i := addr % c.bsize, AddrTag(c, addr), AddrSet(c, addr);
    var w := FindWay(s.sets[i].lines, tag);
    if w < c.assoc {
      TouchInv(c, s, i, w, o, cmd);
      SameDataView(c, Touch(c, s, i, w, o, cmd), Hit(c, s, i, w, addr / c.bsize, o, cmd, now).state);
    } else {
      var v, s1 := Victim(c, s, i), MissReordered(c, s, i);
      SameDataView(c, s, s1);
      RefillInv(c, s1, i, v, tag, now);
      TouchInv(c, Refill(c, s1, i, v, tag, now).state, i, v, o, cmd);
    }
  }

  lemma EvictInv(c: Config, s: State, i: nat, w: nat, now: int)
    requires Inv(c, s) && i < c.nsets && w < c.assoc
    ensures Inv(c, Evict(c, s, i, w, now).state) && !Evict(c, s, i, w, now).state.sets[i].lines[w].valid
  {
    if s.sets[i].lines[w].valid {
      var s1 := s.(replacements := s.replacements + 1, busFree := Evict(c, s, i, w, now).state.busFree);
      SameDataView(c, s, s1);
      DropInv(c, s1, i, w);
    }
  }

  lemma {:induction false} RefillInv(c: Config, s: State, i: nat, w: nat, tag: nat, now: int)
    requires Inv(c, s) && IsBlock(c, tag, i) && w < c.assoc && FindWay(s.sets[i].lines, tag) == c.assoc
    ensures Inv(c, Refill(c, s, i, w, tag, now).state)
  {
    var e := Evict(c, s, i, w, now);
    EvictInv(c, s, i, w, now);
    EvictMisses(c, s, i, w, now, tag);
    FillInv(c, e.state, i, w, tag, now + (e.lat + c.latency(e.state.calls)));
  }

  lemma InvalidateInv(c: Config, s: State, i: nat, w: nat)
    requires Inv(c, s) && i < c.nsets && w < c.assoc
    ensures Inv(c, Invalidate(c, s, i, w))
  {
    var s1 := s.(invalidations := s.invalidations + 1);
    SameDataView(c, s, s1);
    DropInv(c, s1, i, w);
  }

  lemma FlushAddrInv(c: Config, s: State, addr: nat)
    requires Inv(c, s) && addr < SPACE
    ensures Inv(c, CacheFlushAddr(c, s, addr).state)
  {
    var i := AddrSet(c, addr);
    var w := FindWay(s.sets[i].lines, AddrTag(c, addr));
    if w < c.assoc {
      var s1 := s.(last := None);
      SameDataView(c, s, s1);
      InvalidateInv(c, s1, i, w);
      SameDataView(c, Invalidate(c, s1, i, w), CacheFlushAddr(c, s, addr).state);
    }
  }

  // ---- whole runs against a flat memory ----

  /** The reference: writes land in order, everything else changes nothing. */
  ghost function FlatRun(f: seq<Byte>, ops: seq<Op>): (f': seq<Byte>)
    requires |f| == SPACE
    ensures |f'| == SPACE
  {
    if ops == [] then f
    else
      var before, op := FlatRun(f, ops[..|ops| - 1]), ops[|ops| - 1];
      if op.Access? && op.addr + op.cmd.Size() <= SPACE then FlatWrite(before, op.addr, op.cmd) else before
  }

  lemma InitialCoherent(c: Config, mem: seq<Byte>)
    requires ValidConfig(c) && |mem| == SPACE
    ensures Coherent(c, Initial(c, mem), mem)
  {
  }

  lemma {:induction false} RunCoherent(c: Config, mem: seq<Byte>, ops: seq<Op>)
    requires ValidConfig(c) && |mem| == SPACE && OpsOk(ops)
    requires Run(c, Initial(c, mem), ops).Ran?
    ensures Coherent(c, Run(c, Initial(c, mem), ops).state, FlatRun(mem, ops))
  {
    if ops == [] {
      InitialCoherent(c, mem);
    } else {
      var n := |ops| - 1;
      RunCoherent(c, mem, ops[..n]);
      var s, f := Run(c, Initial(c, mem), ops[..n]).state, FlatRun(mem, ops[..n]);
      match ops[n]
      case Access(cmd, addr, now) => AccessCoherent(c, s, cmd, addr, now, f);
      case Flush(_) => FlushCoherent(c, s, f);
      case FlushAddr(addr, _) => FlushAddrCoherent(c, s, addr, f);
    }
  }

  lemma {:induction false} RunPrefix(c: Config, s: State, ops: seq<Op>, k: nat)
    requires Shape(c, s) && OpsOk(ops) && Run(c, s, ops).Ran? && k <= |ops|
    ensures Run(c, s, ops[..k]).Ran?
    ensures Run(c, s, ops[..k]).replies == Run(c, s, ops).replies[..k]
  {
    var n := |ops|;
    if k == n {
      assert ops[..k] == ops;
    } else {
      var front := ops[..n - 1];
      assert front[..k] == ops[..k];
      assert Run(c, s, front).Ran?;
      RunPrefix(c, s, front, k);
      assert Run(c, s, ops).replies[..n - 1] == Run(c, s, front).replies;
    }
  }

  /** Transparency.  In any run of accesses, flushes and address flushes, under
      any policy, every read returns the bytes a flat memory would hold then,
      and right after a whole-cache flush the backing memory is that flat memory. */
  lemma {:induction false} Transparency(c: Config, mem: seq<Byte>, ops: seq<Op>, k: nat)
    requires ValidConfig(c) && |mem| == SPACE && OpsOk(ops) && k < |ops|
    requires Run(c, Initial(c, mem), ops).Ran?
    ensures ops[k].Access? && ops[k].cmd.Read? ==>
              && ops[k].addr + ops[k].cmd.n <= SPACE
              && Run(c, Initial(c, mem), ops).replies[k].data
                   == FlatRun(mem, ops[..k])[ops[k].addr..ops[k].addr + ops[k].cmd.n]
    ensures ops[k].Flush? ==>
              && Run(c, Initial(c, mem), ops[..k + 1]).Ran?
              && Run(c, Initial(c, mem), ops[..k + 1]).state.mem == FlatRun(mem, ops[..k + 1])
  {
    var s0 := Initial(c, mem);
    RunPrefix(c, s0, ops, k + 1);
    assert ops[..k + 1][..k] == ops[..k];
    RunPrefix(c, s0, ops[..k + 1], k);
    RunCoherent(c, mem, ops[..k]);
    var s, f := Run(c, s0, ops[..k]).state, FlatRun(mem, ops[..k]);
    var r1 := Run(c, s0, ops[..k + 1]);
    assert r1.replies[k] == Step(c, s, ops[k]).reply;
    assert r1.replies[k] == Run(c, s0, ops).replies[k];
    match ops[k]
    case Access(cmd, addr, now) => AccessCoherent(c, s, cmd, addr, now, f);
    case Flush(_) => FlushCoherent(c, s, f);
    case FlushAddr(addr, _) =>
  }
}
