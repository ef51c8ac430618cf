/** Memory checkpoints (lab2/eio.c): every page table entry is written out, and
    reading the records back into an empty memory gives the same bytes. */
module Checkpoint {
  import opened FlatMemory
  import opened Recency
  import opened Links
  import opened HashChains
  import opened PagedMemory

  /** One (address, blob) record of a checkpoint file. */
  datatype PageRec = PageRec(addr: nat, data: seq<Byte>)

  ghost predicate Dumped(dump: seq<PageRec>, p: nat) {
    exists k :: 0 <= k < |dump| && dump[k].addr == p * 4096
  }

  /** Record k holds the page of `flat` at its address. */
  ghost predicate TrueRec(flat: seq<Byte>, r: PageRec)
    requires |flat| == SPACE
  {
    r.addr < SPACE && r.addr % 4096 == 0 && r.data == PageAt(flat, r.addr / 4096)
  }

  /** The records are pages of `flat`, and pages without a record are zero. */
  ghost predicate IsDump(flat: seq<Byte>, dump: seq<PageRec>) {
    && |flat| == SPACE
    && (forall k :: 0 <= k < |dump| ==> TrueRec(flat, dump[k]))
    && (forall p: nat :: p < 1048576 && !Dumped(dump, p) ==> PageAt(flat, p) == ZeroPage())
  }

  /** Write the blobs of the records byte by byte from their addresses on. */
  function Load(flat: seq<Byte>, dump: seq<PageRec>): (flat': seq<Byte>)
    requires |flat| == SPACE
    ensures |flat'| == SPACE
  {
    if dump == [] then flat
    else
      var r := dump[|dump| - 1];
      WriteWrap(Load(flat, dump[..|dump| - 1]), r.addr, r.data)
  }

  lemma {:induction false} WriteIsSplice(flat: seq<Byte>, addr: nat, bytes: seq<Byte>)
    requires |flat| == SPACE && addr + |bytes| <= SPACE
    ensures WriteWrap(flat, addr, bytes) == Splice(flat, addr, bytes)
  {
    if bytes != [] {
      var n := |bytes| - 1;
      WriteIsSplice(flat, addr, bytes[..n]);
      SplicePut(flat, addr, bytes[..n], bytes[n]);
      assert bytes[..n] + [bytes[n]] == bytes;
      assert Wrap(addr + |bytes| - 1) == addr + n;
      assert WriteWrap(flat, addr, bytes) == Put(WriteWrap(flat, addr, bytes[..n]), addr + n, bytes[n]);
    }
  }

  lemma SplicePut(flat: seq<Byte>, addr: nat, bytes: seq<Byte>, v: Byte)
    requires addr + |bytes| < |flat|
    ensures Put(Splice(flat, addr, bytes), addr + |bytes|, v) == Splice(flat, addr, bytes + [v])
  {
  }

  lemma {:induction false} WritePage(flat: seq<Byte>, p: nat, d: seq<Byte>, q: nat)
    requires |flat| == SPACE && p < 1048576 && q < 1048576 && |d| == 4096
    ensures PageAt(WriteWrap(flat, p * 4096, d), q) == if q == p then d else PageAt(flat, q)
  {
    WriteIsSplice(flat, p * 4096, d);
    SpliceThenSlice(flat, p * 4096, d, q * 4096, 4096);
  }

  /** Loading gives the dumped pages their bytes and leaves the others. */
  lemma {:induction false} LoadPage(flat: seq<Byte>, g: seq<Byte>, dump: seq<PageRec>, p: nat)
    requires |flat| == SPACE && |g| == SPACE && p < 1048576
    requires forall k :: 0 <= k < |dump| ==> TrueRec(flat, dump[k])
    ensures PageAt(Load(g, dump), p) == if Dumped(dump, p) then PageAt(flat, p) else PageAt(g, p)
  {
    if dump != [] {
      var n := |dump| - 1;
      var r, front := dump[n], dump[..n];
      LoadPage(flat, g, front, p);
      assert TrueRec(flat, r);
      WriteRec(flat, Load(g, front), r, p);
      DumpedSnoc(front, r, p);
      assert front + [r] == dump;
    }
  }

  lemma {:induction false} WriteRec(flat: seq<Byte>, g: seq<Byte>, r: PageRec, p: nat)
    requires |flat| == SPACE && |g| == SPACE && p < 1048576 && TrueRec(flat, r)
    ensures PageAt(WriteWrap(g, r.addr, r.data), p) == if r.addr == p * 4096 then PageAt(flat, p) else PageAt(g, p)
  {
    var q := r.addr / 4096;
    assert q * 4096 == r.addr && (r.addr == p * 4096 <==> p == q);
    WritePage(g, q, r.data, p);
  }

  lemma DumpedSnoc(front: seq<PageRec>, r: PageRec, p: nat)
    ensures Dumped(front + [r], p) <==> Dumped(front, p) || r.addr == p * 4096
  {
    var dump := front + [r];
    assert dump[|front|] == r;
    assert forall k :: 0 <= k < |front| ==> dump[k] == front[k];
  }

  lemma SamePages(f: seq<Byte>, g: seq<Byte>)
    requires |f| == SPACE && |g| == SPACE
    requires forall p: nat :: p < 1048576 ==> PageAt(f, p) == PageAt(g, p)
    ensures f == g
  {
    forall a: nat | a < SPACE
      ensures f[a] == g[a]
    {
      PageByte(f, a);
      PageByte(g, a);
    }
  }

  /** Checkpoint round trip: loading a dump of `flat` over a memory g gives `flat`
      exactly when g is zero on every page that has no record; an empty memory is. */
  lemma {:induction false} RoundTrip(flat: seq<Byte>, dump: seq<PageRec>, g: seq<Byte>)
    requires IsDump(flat, dump) && |g| == SPACE
    ensures Load(g, dump) == flat <==>
              forall p: nat :: p < 1048576 && !Dumped(dump, p) ==> PageAt(g, p) == ZeroPage()
    ensures (forall a :: 0 <= a < SPACE ==> g[a] == 0) ==> Load(g, dump) == flat
  {
    var l := Load(g, dump);
    forall p: nat | p < 1048576
      ensures PageAt(l, p) == if Dumped(dump, p) then PageAt(flat, p) else PageAt(g, p)
    {
      LoadPage(flat, g, dump, p);
    }
    if forall p: nat :: p < 1048576 && !Dumped(dump, p) ==> PageAt(g, p) == ZeroPage() {
      SamePages(l, flat);
    }
    if forall a :: 0 <= a < SPACE ==> g[a] == 0 {
      AllZeroPages(g);
      SamePages(l, flat);
    }
  }

  lemma AllZeroPages(g: seq<Byte>)
    requires |g| == SPACE && forall a :: 0 <= a < SPACE ==> g[a] == 0
    ensures forall p: nat :: p < 1048576 ==> PageAt(g, p) == ZeroPage()
  {
  }

  // ---- writing ----

  /** The entries listed so far: all of the buckets before i, and k of bucket i. */
  ghost predicate Seen(home: seq<nat>, buckets: seq<seq<nat>>, seen: seq<nat>, i: nat, k: nat)
    requires i < |buckets| ==> k <= |buckets[i]|
  {
    && Distinct(seen)
    && forall x: nat :: x in seen <==> x < |home| && (home[x] < i || (i < |buckets| && x in buckets[i][..k]))
  }

  lemma SeenNext(home: seq<nat>, buckets: seq<seq<nat>>, seen: seq<nat>, i: nat, k: nat)
    requires Members(home, buckets, NULL) && i < |buckets| && k < |buckets[i]| && Distinct(buckets[i])
    requires Seen(home, buckets, seen, i, k)
    ensures Seen(home, buckets, seen + [buckets[i][k]], i, k + 1)
  {
    var x := buckets[i][k];
    assert x in buckets[i] && x < |home| && home[x] == i;
    assert x !in buckets[i][..k];
    assert buckets[i][..k + 1] == buckets[i][..k] + [x];
  }

  lemma SeenBucket(home: seq<nat>, buckets: seq<seq<nat>>, seen: seq<nat>, i: nat)
    requires Members(home, buckets, NULL) && i < |buckets| && Seen(home, buckets, seen, i, |buckets[i]|)
    ensures Seen(home, buckets, seen, i + 1, 0)
  {
    assert buckets[i][..|buckets[i]|] == buckets[i];
    forall x: nat
      ensures x in seen <==> x < |home| && home[x] < i + 1
    {
      assert x < |home| && home[x] == i ==> x in buckets[home[x]];
    }
  }

  /** All entries listed once each: as many as there are. */
  lemma SeenAll(home: seq<nat>, buckets: seq<seq<nat>>, seen: seq<nat>)
    requires Members(home, buckets, NULL) && Seen(home, buckets, seen, |buckets|, 0)
    ensures |seen| == |home| && forall x: nat :: x < |home| ==> x in seen
  {
    forall x: nat | x < |home|
      ensures x in seen
    {
      assert home[x] < |buckets|;
    }
    SizeOfDistinct(seen);
    var all := set k | 0 <= k < |seen| :: seen[k];
    forall x: nat | x < |home|
      ensures x in all
    {
      assert x in seen;
    }
    assert forall x :: x in all ==> x in seen;
    assert all == Below(|home|);
  }

  ghost function RecOf(home: seq<nat>, tags: seq<nat>, pages: seq<seq<Byte>>, x: nat): PageRec
    requires x < |home| == |tags| == |pages|
  {
    PageRec(PteAddr(tags[x], home[x]), pages[x])
  }

  /** Each record is that of the entry listed at its position. */
  ghost predicate Emitted(home: seq<nat>, tags: seq<nat>, pages: seq<seq<Byte>>, seen: seq<nat>, dump: seq<PageRec>)
    requires |home| == |tags| == |pages|
  {
    |dump| == |seen| && forall k :: 0 <= k < |seen| ==> seen[k] < |home| && dump[k] == RecOf(home, tags, pages, seen[k])
  }

  lemma RecIsTrue(home: seq<nat>, tags: seq<nat>, pages: seq<seq<Byte>>, flat: seq<Byte>, x: nat)
    requires Maps(home, tags, pages, flat) && x < |home|
    ensures TrueRec(flat, RecOf(home, tags, pages, x))
  {
    PteAddrPage(tags[x], home[x]);
  }

  lemma EmittedIsDump(home: seq<nat>, tags: seq<nat>, pages: seq<seq<Byte>>, flat: seq<Byte>,
                      seen: seq<nat>, dump: seq<PageRec>)
    requires Maps(home, tags, pages, flat) && Emitted(home, tags, pages, seen, dump)
    requires forall x: nat :: x < |home| ==> x in seen
    ensures IsDump(flat, dump)
  {
    forall k | 0 <= k < |dump|
      ensures TrueRec(flat, dump[k])
    {
      RecIsTrue(home, tags, pages, flat, seen[k]);
    }
    forall p: nat | p < 1048576 && !Dumped(dump, p)
      ensures PageAt(flat, p) == ZeroPage()
    {
      MappedIsDumped(home, tags, pages, seen, dump, p);
    }
  }

  lemma MappedIsDumped(home: seq<nat>, tags: seq<nat>, pages: seq<seq<Byte>>, seen: seq<nat>, dump: seq<PageRec>,
                       p: nat)
    requires |home| == |tags| == |pages| && Emitted(home, tags, pages, seen, dump)
    requires forall x: nat :: x < |home| ==> x in seen
    ensures Mapped(home, tags, p) ==> Dumped(dump, p)
  {
    if Mapped(home, tags, p) {
      var x: nat :| x < |home| && home[x] == p % 32768 && tags[x] == p / 32768;
      assert x in seen;
      var k :| 0 <= k < |seen| && seen[k] == x;
      PteAddrPage(tags[x], home[x]);
      assert dump[k].addr == p * 4096;
    }
  }

  /** No address is recorded twice. */
  ghost predicate OneRecordEach(dump: seq<PageRec>) {
    forall i, j :: 0 <= i < j < |dump| ==> dump[i].addr != dump[j].addr
  }

  lemma EntriesApart(home: seq<nat>, tags: seq<nat>, pages: seq<seq<Byte>>, flat: seq<Byte>, x: nat, y: nat)
    requires Maps(home, tags, pages, flat) && x < |home| && y < |home| && x != y
    ensures PteAddr(tags[x], home[x]) != PteAddr(tags[y], home[y])
  {
    PteAddrPage(tags[x], home[x]);
    PteAddrPage(tags[y], home[y]);
    PageNoInjective(tags[x], home[x], tags[y], home[y]);
  }

  lemma EmittedOnce(home: seq<nat>, tags: seq<nat>, pages: seq<seq<Byte>>, flat: seq<Byte>, seen: seq<nat>,
                    dump: seq<PageRec>)
    requires Maps(home, tags, pages, flat) && Emitted(home, tags, pages, seen, dump) && Distinct(seen)
    ensures OneRecordEach(dump)
  {
    forall i, j | 0 <= i < j < |dump|
      ensures dump[i].addr != dump[j].addr
    {
      EntriesApart(home, tags, pages, flat, seen[i], seen[j]);
    }
  }

  /** The pages recorded are those that are mapped. */
  lemma EmittedExactly(home: seq<nat>, tags: seq<nat>, pages: seq<seq<Byte>>, flat: seq<Byte>, seen: seq<nat>,
                       dump: seq<PageRec>)
    requires Maps(home, tags, pages, flat) && Emitted(home, tags, pages, seen, dump)
    requires forall x: nat :: x < |home| ==> x in seen
    ensures forall p: nat :: p < 1048576 ==> (Dumped(dump, p) <==> Mapped(home, tags, p))
  {
    forall p: nat | p < 1048576
      ensures Dumped(dump, p) <==> Mapped(home, tags, p)
    {
      MappedIsDumped(home, tags, pages, seen, dump, p);
      if Dumped(dump, p) {
        DumpedIsMapped(home, tags, pages, flat, seen, dump, p);
      }
    }
  }

  lemma DumpedIsMapped(home: seq<nat>, tags: seq<nat>, pages: seq<seq<Byte>>, flat: seq<Byte>, seen: seq<nat>,
                       dump: seq<PageRec>, p: nat)
    requires Maps(home, tags, pages, flat) && Emitted(home, tags, pages, seen, dump) && Dumped(dump, p)
    ensures Mapped(home, tags, p)
  {
    var k :| 0 <= k < |dump| && dump[k].addr == p * 4096;
    var x := seen[k];
    PteAddrPage(tags[x], home[x]);
    PageNoInjective(tags[x], home[x], 0, 0);
    assert home[x] == p % 32768 && tags[x] == p / 32768;
  }

  /** The memory part of eio_write_chkpt: the page count, then MEM_FORALL. */
  method WriteCheckpoint(mem: Mem) returns (count: nat, dump: seq<PageRec>)
    requires mem.Valid()
    ensures IsDump(mem.flat, dump) && count == |dump| == mem.pageCount && OneRecordEach(dump)
    ensures forall p: nat :: p < 1048576 ==> (Dumped(dump, p) <==> Mapped(mem.home, mem.tags, p))
  {
    count, dump := mem.pageCount, [];
    ghost var seen: seq<nat> := [];
    var i := 0;
    while i < 32768
      invariant 0 <= i <= 32768
      invariant Seen(mem.home, mem.buckets, seen, i, 0)
      invariant Emitted(mem.home, mem.tags, mem.pages, seen, dump)
    {
      ghost var nodes, k := mem.buckets[i], 0;
      assert IsChain(mem.next, mem.ptab[i], nodes);
      var pte := mem.ptab[i];
      while pte != NULL
        invariant 0 <= k <= |nodes| && pte == At(nodes, k)
        invariant Seen(mem.home, mem.buckets, seen, i, k)
        invariant Emitted(mem.home, mem.tags, mem.pages, seen, dump)
        decreases |nodes| - k
      {
        assert nodes[k] in nodes && mem.next[nodes[k]] == At(nodes, k + 1);
        dump := dump + [PageRec(PteAddr(mem.tags[pte], i), mem.pages[pte])];
        SeenNext(mem.home, mem.buckets, seen, i, k);
        seen := seen + [nodes[k]];
        pte := mem.next[pte];
        k := k + 1;
      }
      SeenBucket(mem.home, mem.buckets, seen, i);
      i := i + 1;
    }
    SeenAll(mem.home, mem.buckets, seen);
    EmittedIsDump(mem.home, mem.tags, mem.pages, mem.flat, seen, dump);
    EmittedOnce(mem.home, mem.tags, mem.pages, mem.flat, seen, dump);
    EmittedExactly(mem.home, mem.tags, mem.pages, mem.flat, seen, dump);
  }

  // ---- reading ----

  /** The page loop of eio_read_chkpt; a record that is not there is fatal. */
  method ReadCheckpoint(mem: Mem, count: nat, dump: seq<PageRec>) returns (ok: bool)
    requires mem.Valid() && forall k :: 0 <= k < |dump| ==> dump[k].addr < SPACE
    modifies mem
    ensures mem.Valid() && (ok <==> count <= |dump|)
    ensures ok ==> mem.flat == Load(old(mem.flat), dump[..count])
  {
    ghost var f := mem.flat;
    var i := 0;
    while i < count
      invariant 0 <= i <= count && i <= |dump|
      invariant mem.Valid() && mem.flat == Load(f, dump[..i])
    {
      if i == |dump| {
        return false;
      }
      mem.WriteBytes(dump[i].addr, dump[i].data);
      assert dump[..i + 1][..i] == dump[..i];
      i := i + 1;
    }
    ok := true;
  }

  lemma AddressesFit(flat: seq<Byte>, dump: seq<PageRec>)
    requires IsDump(flat, dump)
    ensures forall k :: 0 <= k < |dump| ==> dump[k].addr < SPACE
  {
    assert forall k :: 0 <= k < |dump| ==> TrueRec(flat, dump[k]);
  }

  /** Writing a checkpoint and reading it into a fresh memory reproduces every byte. */
  method SaveAndRestore(mem: Mem) returns (copy: Mem)
    requires mem.Valid()
    ensures copy.Valid() && fresh(copy) && copy.flat == mem.flat
  {
    var count, dump := WriteCheckpoint(mem);
    copy := new Mem();
    RoundTrip(mem.flat, dump, copy.flat);
    AddressesFit(mem.flat, dump);
    var ok := ReadCheckpoint(copy, count, dump);
    assert dump[..count] == dump;
  }
}
