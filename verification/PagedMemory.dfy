/** Simulated memory (lab2/memory.c, lab2/memory.h): an inverted page table with
    move-to-front buckets that is a flat memory, zero where no page exists yet. */
module PagedMemory {
  import opened Pow2
  import opened FlatMemory
  import opened Recency
  import opened Links
  import opened HashChains

  // The PISA target has pages of 4096 (2^12) bytes; the table has 32768 (2^15)
  // buckets, so addresses of one bucket repeat every 134217728 (2^27) bytes and
  // there are 1048576 (2^20) pages.

  // ---- address arithmetic ----

  function PtabSet(addr: nat): (b: nat)
    ensures b < 32768
  {
    (addr / 4096) % 32768
  }

  function PtabTag(addr: nat): nat {
    addr / 134217728
  }

  function PteAddr(tag: nat, idx: nat): nat {
    tag * 134217728 + idx * 4096
  }

  /** The set/tag split of an address and MEM_PTE_ADDR are inverse. */
  lemma PteAddrInverts(addr: nat, tag: nat, idx: nat)
    requires idx < 32768
    ensures PteAddr(PtabTag(addr), PtabSet(addr)) == addr - addr % 4096
    ensures PtabTag(PteAddr(tag, idx)) == tag && PtabSet(PteAddr(tag, idx)) == idx
  {
    var page := addr / 4096;
    assert PtabTag(addr) == page / 32768;
    assert PteAddr(PtabTag(addr), PtabSet(addr)) == (page / 32768 * 32768 + page % 32768) * 4096;
    assert PteAddr(tag, idx) / 4096 == tag * 32768 + idx;
  }

  lemma PteAddrPage(tag: nat, idx: nat)
    ensures PteAddr(tag, idx) == PageNo(tag, idx) * 4096
    ensures PteAddr(tag, idx) / 4096 == PageNo(tag, idx) && PteAddr(tag, idx) % 4096 == 0
  {
    assert PteAddr(tag, idx) == PageNo(tag, idx) * 4096;
  }

  /** The number of a page in the address space. */
  function PageNo(tag: nat, idx: nat): nat {
    tag * 32768 + idx
  }

  function ZeroPage(): (d: seq<Byte>)
    ensures |d| == 4096 && forall k :: 0 <= k < 4096 ==> d[k] == 0
  {
    seq(4096, _ => 0)
  }

  lemma PageNoInjective(tag: nat, idx: nat, tag': nat, idx': nat)
    requires idx < 32768 && idx' < 32768
    ensures PageNo(tag, idx) / 32768 == tag && PageNo(tag, idx) % 32768 == idx
    ensures PageNo(tag, idx) == PageNo(tag', idx') ==> tag == tag' && idx == idx'
  {
    assert PageNo(tag', idx') / 32768 == tag' && PageNo(tag', idx') % 32768 == idx';
  }

  function PageAt(flat: seq<Byte>, p: nat): (d: seq<Byte>)
    requires |flat| == SPACE && p < 1048576
    ensures |d| == 4096
  {
    flat[p * 4096..p * 4096 + 4096]
  }

  function Put(d: seq<Byte>, o: nat, v: Byte): (d': seq<Byte>)
    requires o < |d|
    ensures |d'| == |d|
  {
    d[o := v]
  }

  lemma PageUpdate(flat: seq<Byte>, addr: nat, v: Byte, p: nat)
    requires |flat| == SPACE && addr < SPACE && p < 1048576
    ensures PageAt(Put(flat, addr, v), p)
         == if p == addr / 4096 then Put(PageAt(flat, p), addr % 4096, v) else PageAt(flat, p)
  {
    assert p == addr / 4096 ==> p * 4096 + addr % 4096 == addr;
  }

  lemma PageByte(flat: seq<Byte>, addr: nat)
    requires |flat| == SPACE && addr < SPACE
    ensures addr / 4096 < 1048576 && PageAt(flat, addr / 4096)[addr % 4096] == flat[addr]
  {
  }

  // ---- the abstraction ----

  /** Entry x maps page PageNo(tags[x], home[x]), where home[x] is its bucket;
      unmapped pages are zero. */
  ghost predicate Maps(home: seq<nat>, tags: seq<nat>, pages: seq<seq<Byte>>, flat: seq<Byte>) {
    && |home| == |tags| == |pages| && |flat| == SPACE
    && (forall x :: 0 <= x < |home| ==> home[x] < 32768 && PageNo(tags[x], home[x]) < 1048576)
    && (forall x :: 0 <= x < |home| ==> pages[x] == PageAt(flat, PageNo(tags[x], home[x])))
    && (forall x, y :: 0 <= x < y < |home| && home[x] == home[y] ==> tags[x] != tags[y])
    && (forall p: nat {:trigger Mapped(home, tags, p)} :: p < 1048576 && !Mapped(home, tags, p) ==>
          PageAt(flat, p) == ZeroPage())
  }

  ghost predicate Mapped(home: seq<nat>, tags: seq<nat>, p: nat)
    requires |home| == |tags|
  {
    exists x :: 0 <= x < |home| && home[x] == p % 32768 && tags[x] == p / 32768
  }

  lemma PageSplit(addr: nat)
    ensures (addr / 4096) % 32768 == PtabSet(addr) && (addr / 4096) / 32768 == PtabTag(addr)
  {
  }

  /** What finding, or not finding, an entry for the bucket and tag of an address says. */
  lemma EntryMeans(home: seq<nat>, tags: seq<nat>, addr: nat, pte: int)
    requires |home| == |tags|
    requires pte == NULL ==> forall x :: 0 <= x < |home| && home[x] == PtabSet(addr) ==> tags[x] != PtabTag(addr)
    requires pte != NULL ==> 0 <= pte < |tags| && tags[pte] == PtabTag(addr) && home[pte] == PtabSet(addr)
    ensures pte == NULL <==> !Mapped(home, tags, addr / 4096)
    ensures pte != NULL ==> PageNo(tags[pte], home[pte]) == addr / 4096
  {
    PageSplit(addr);
  }

  lemma NewPageMaps(home: seq<nat>, tags: seq<nat>, pages: seq<seq<Byte>>, flat: seq<Byte>, p: nat)
    requires Maps(home, tags, pages, flat) && p < 1048576 && !Mapped(home, tags, p)
    ensures Maps(home + [p % 32768], tags + [p / 32768], pages + [ZeroPage()], flat)
  {
    var home', tags', n := home + [p % 32768], tags + [p / 32768], |home|;
    assert PageNo(tags'[n], home'[n]) == p;
    forall q: nat | q < 1048576 && !Mapped(home', tags', q)
      ensures PageAt(flat, q) == ZeroPage()
    {
      StillMapped(home, tags, p % 32768, p / 32768, q);
    }
  }

  lemma StillMapped(home: seq<nat>, tags: seq<nat>, h: nat, t: nat, q: nat)
    requires |home| == |tags|
    ensures Mapped(home, tags, q) ==> Mapped(home + [h], tags + [t], q)
  {
    if Mapped(home, tags, q) {
      var x :| 0 <= x < |home| && home[x] == q % 32768 && tags[x] == q / 32768;
      assert (home + [h])[x] == home[x] && (tags + [t])[x] == tags[x];
    }
  }

  lemma WriteMaps(home: seq<nat>, tags: seq<nat>, pages: seq<seq<Byte>>, flat: seq<Byte>, x: nat, addr: nat, v: Byte)
    requires Maps(home, tags, pages, flat) && x < |home| && addr < SPACE && PageNo(tags[x], home[x]) == addr / 4096
    ensures |pages[x]| == 4096
    ensures Maps(home, tags, pages[x := Put(pages[x], addr % 4096, v)], Put(flat, addr, v))
  {
    var pages', flat' := pages[x := Put(pages[x], addr % 4096, v)], Put(flat, addr, v);
    forall y | 0 <= y < |home|
      ensures pages'[y] == PageAt(flat', PageNo(tags[y], home[y]))
    {
      PageUpdate(flat, addr, v, PageNo(tags[y], home[y]));
      PageNoInjective(tags[y], home[y], tags[x], home[x]);
      assert y == x || PageNo(tags[y], home[y]) != addr / 4096;
    }
    forall p: nat | p < 1048576 && !Mapped(home, tags, p)
      ensures PageAt(flat', p) == ZeroPage()
    {
      PageUpdate(flat, addr, v, p);
      PageNoInjective(tags[x], home[x], 0, 0);
      assert p == addr / 4096 ==> Mapped(home, tags, p);
    }
  }

  // ---- copying ----

  datatype Cmd = Read | Write
  datatype Fault = NoFault | AccessFault | AlignmentFault

  /** The bytes from addr on, wrapping at the top of the address space. */
  function ReadWrap(flat: seq<Byte>, addr: nat, n: nat): (d: seq<Byte>)
    requires |flat| == SPACE
    ensures |d| == n && forall k :: 0 <= k < n ==> d[k] == flat[Wrap(addr + k)]
  {
    seq(n, k requires 0 <= k < n => flat[Wrap(addr + k)])
  }

  function WriteWrap(flat: seq<Byte>, addr: nat, bytes: seq<Byte>): (flat': seq<Byte>)
    requires |flat| == SPACE
    ensures |flat'| == SPACE
  {
    if bytes == [] then flat
    else Put(WriteWrap(flat, addr, bytes[..|bytes| - 1]), Wrap(addr + |bytes| - 1), bytes[|bytes| - 1])
  }

  lemma WrapAdd(a: nat, b: nat)
    ensures Wrap(Wrap(a) + b) == Wrap(a + b)
  {
  }

  lemma {:induction false} WriteWrapAppend(flat: seq<Byte>, addr: nat, a: seq<Byte>, b: seq<Byte>)
    requires |flat| == SPACE
    ensures WriteWrap(flat, addr, a + b) == WriteWrap(WriteWrap(flat, addr, a), Wrap(addr + |a|), b)
  {
    if b == [] {
      assert a + b == a;
    } else {
      var n := |b| - 1;
      assert (a + b)[..|a| + n] == a + b[..n];
      WriteWrapAppend(flat, addr, a, b[..n]);
      WrapAdd(addr + |a|, n);
    }
  }

  /** The outcome of a copy: the fault, the memory and the host buffer. */
  datatype Copied = Copied(fault: Fault, flat: seq<Byte>, buf: seq<Byte>)

  function Copy(flat: seq<Byte>, cmd: Cmd, addr: nat, buf: seq<Byte>): (r: Copied)
    requires |flat| == SPACE
    ensures |r.flat| == SPACE && |r.buf| == |buf|
  {
    if cmd.Read? then Copied(NoFault, flat, ReadWrap(flat, addr, |buf|))
    else Copied(NoFault, WriteWrap(flat, addr, buf), buf)
  }

  /** One byte more. */
  lemma {:induction false} WriteOne(flat: seq<Byte>, addr: nat, data: seq<Byte>, i: nat)
    requires |flat| == SPACE && i < |data|
    ensures Wrap(Wrap(addr + i) + 1) == Wrap(addr + (i + 1))
    ensures WriteWrap(flat, addr, data[..i + 1]) == Put(WriteWrap(flat, addr, data[..i]), Wrap(addr + i), data[i])
  {
    WrapAdd(addr + i, 1);
    assert data[..i + 1][..i] == data[..i];
  }

  /** mem_access: sizes and alignments are checked, then all bytes are copied. */
  function AccessSpec(flat: seq<Byte>, cmd: Cmd, addr: nat, buf: seq<Byte>): (r: Copied)
    requires |flat| == SPACE
    ensures |r.flat| == SPACE && |r.buf| == |buf|
  {
    if !PassesSizeTest(|buf|) || |buf| > 4096 then Copied(AccessFault, flat, buf)
    else if !PassesAlignTest(addr, |buf|) then Copied(AlignmentFault, flat, buf)
    else Copy(flat, cmd, addr, buf)
  }

  /** The sizes of an access. */
  ghost predicate AccessSize(n: nat) {
    n in {1, 2, 4, 8, 16, 32, 64, 128, 256, 512, 1024, 2048, 4096}
  }

  lemma {:induction false} SmallPowers(n: nat)
    ensures AccessSize(n) <==> IsPow2(n) && n <= 4096
  {
    if IsPow2(n) && 1 < n <= 4096 {
      SmallPowers(n / 2);
      assert n == 2 * (n / 2);
    }
    assert IsPow2(1) && IsPow2(2) && IsPow2(4) && IsPow2(8) && IsPow2(16) && IsPow2(32) && IsPow2(64);
    assert IsPow2(128) && IsPow2(256) && IsPow2(512) && IsPow2(1024) && IsPow2(2048) && IsPow2(4096);
  }

  /** An access does not fault exactly when it is a power of two in size, at most a page,
      and aligned to its size; the empty access only at address zero. */
  lemma {:induction false} AccessFaults(flat: seq<Byte>, cmd: Cmd, addr: nat, buf: seq<Byte>, r: Copied)
    requires |flat| == SPACE && r == AccessSpec(flat, cmd, addr, buf)
    ensures r.fault == NoFault <==> if |buf| == 0 then addr == 0 else AccessSize(|buf|) && addr % |buf| == 0
    ensures r.fault == AccessFault <==> |buf| != 0 && !AccessSize(|buf|)
    ensures r.fault != NoFault ==> r.flat == flat && r.buf == buf
  {
    SmallPowers(|buf|);
  }

  /** mem_bcopy4: whole words only, and only at aligned addresses. */
  function Bcopy4Spec(flat: seq<Byte>, cmd: Cmd, addr: nat, buf: seq<Byte>): (r: Copied)
    requires |flat| == SPACE
  {
    var m := |buf| - |buf| % 4;
    if m == 0 then Copied(NoFault, flat, buf)
    else if addr % 4 != 0 then Copied(AlignmentFault, flat, buf)
    else
      var r := Copy(flat, cmd, addr, buf[..m]);
      Copied(NoFault, r.flat, r.buf + buf[m..])
  }

  /** The fast copy agrees with the byte copy on aligned multiples of four. */
  lemma Bcopy4Agrees(flat: seq<Byte>, cmd: Cmd, addr: nat, buf: seq<Byte>)
    requires |flat| == SPACE && |buf| % 4 == 0 && (addr % 4 == 0 || buf == [])
    ensures Bcopy4Spec(flat, cmd, addr, buf) == Copy(flat, cmd, addr, buf)
  {
    assert buf[..|buf|] == buf;
    if buf == [] {
      assert ReadWrap(flat, addr, 0) == buf;
    }
  }

  lemma WrapDiffer(addr: nat, i: nat, j: nat)
    requires i < j < i + SPACE
    ensures Wrap(addr + i) != Wrap(addr + j)
  {
  }

  /** Up to one turn of memory, a wrapping write leaves each byte in its place and
      keeps the bytes behind it. */
  lemma {:induction false} WriteWrapAt(flat: seq<Byte>, addr: nat, bytes: seq<Byte>, k: nat)
    requires |flat| == SPACE && |bytes| <= SPACE && k < SPACE
    ensures WriteWrap(flat, addr, bytes)[Wrap(addr + k)] == if k < |bytes| then bytes[k] else flat[Wrap(addr + k)]
  {
    if bytes != [] {
      var n := |bytes| - 1;
      WriteWrapAt(flat, addr, bytes[..n], k);
      if k < n {
        WrapDiffer(addr, k, n);
      } else if n < k {
        WrapDiffer(addr, n, k);
      }
    }
  }

  /** Memory already holds byte k of a buffer that belongs at addr. */
  predicate Holding(flat: seq<Byte>, addr: nat, bytes: seq<Byte>, k: nat)
    requires |flat| == SPACE && k < |bytes|
  {
    flat[Wrap(addr + k)] == bytes[k]
  }

  ghost predicate TailHeld(flat: seq<Byte>, addr: nat, buf: seq<Byte>, m: nat)
    requires |flat| == SPACE
  {
    forall k :: m <= k < |buf| ==> Holding(flat, addr, buf, k)
  }

  lemma {:induction false} WriteSame(flat: seq<Byte>, addr: nat, bytes: seq<Byte>)
    requires |flat| == SPACE && TailHeld(flat, addr, bytes, 0)
    ensures WriteWrap(flat, addr, bytes) == flat
  {
    if bytes != [] {
      var n := |bytes| - 1;
      forall k | 0 <= k < n
        ensures Holding(flat, addr, bytes[..n], k)
      {
        assert Holding(flat, addr, bytes, k);
      }
      WriteSame(flat, addr, bytes[..n]);
      assert Holding(flat, addr, bytes, n);
    }
  }

  lemma TailShift(flat: seq<Byte>, addr: nat, buf: seq<Byte>, m: nat)
    requires |flat| == SPACE && m <= |buf| && TailHeld(flat, addr, buf, m)
    ensures TailHeld(flat, Wrap(addr + m), buf[m..], 0)
  {
    var a, tail := Wrap(addr + m), buf[m..];
    forall k: nat | k < |tail|
      ensures Holding(flat, a, tail, k)
    {
      WrapAdd(addr + m, k);
      assert Holding(flat, addr, buf, m + k);
    }
  }

  /** Writing a buffer without its tail is writing all of it exactly when memory
      holds the tail already. */
  lemma {:induction false} ShortWrite(flat: seq<Byte>, addr: nat, buf: seq<Byte>, m: nat)
    requires |flat| == SPACE && m <= |buf| <= SPACE
    ensures WriteWrap(flat, addr, buf[..m]) == WriteWrap(flat, addr, buf) <==> TailHeld(flat, addr, buf, m)
  {
    var g := WriteWrap(flat, addr, buf[..m]);
    assert buf == buf[..m] + buf[m..];
    WriteWrapAppend(flat, addr, buf[..m], buf[m..]);
    forall k: nat | m <= k < |buf|
      ensures Holding(g, addr, buf, k) == Holding(flat, addr, buf, k)
      ensures WriteWrap(flat, addr, buf)[Wrap(addr + k)] == buf[k]
    {
      WriteWrapAt(flat, addr, buf[..m], k);
      WriteWrapAt(flat, addr, buf, k);
    }
    if TailHeld(flat, addr, buf, m) {
      assert TailHeld(g, addr, buf, m);
      TailShift(g, addr, buf, m);
      WriteSame(g, Wrap(addr + m), buf[m..]);
    }
  }

  lemma ShortRead(flat: seq<Byte>, addr: nat, buf: seq<Byte>, m: nat)
    requires |flat| == SPACE && m <= |buf|
    ensures ReadWrap(flat, addr, m) + buf[m..] == ReadWrap(flat, addr, |buf|) <==> TailHeld(flat, addr, buf, m)
  {
    var short, all := ReadWrap(flat, addr, m) + buf[m..], ReadWrap(flat, addr, |buf|);
    assert forall k :: m <= k < |buf| ==> short[k] == buf[k];
    assert forall k :: 0 <= k < m ==> short[k] == all[k];
    if TailHeld(flat, addr, buf, m) {
      forall k | m <= k < |buf|
        ensures short[k] == all[k]
      {
        assert Holding(flat, addr, buf, k);
      }
      assert short == all;
    } else {
      var k :| m <= k < |buf| && !Holding(flat, addr, buf, k);
      assert short[k] != all[k];
    }
  }

  /** The fast copy does what the byte copy does exactly when it has no word to
      copy or starts aligned, and the bytes after the last whole word are already
      the same on both sides. */
  lemma Bcopy4Exact(flat: seq<Byte>, cmd: Cmd, addr: nat, buf: seq<Byte>)
    requires |flat| == SPACE && |buf| <= SPACE
    ensures Bcopy4Spec(flat, cmd, addr, buf) == Copy(flat, cmd, addr, buf) <==>
              (|buf| < 4 || addr % 4 == 0) && TailHeld(flat, addr, buf, |buf| - |buf| % 4)
  {
    var m := |buf| - |buf| % 4;
    ShortRead(flat, addr, buf, m);
    ShortWrite(flat, addr, buf, m);
    assert buf[..m] + buf[m..] == buf;
    if m == 0 {
      assert buf[..0] == [] && buf[0..] == buf && ReadWrap(flat, addr, 0) + buf == buf;
    }
  }

  class Mem {
    var next: seq<int>           // the page table entries, in order of allocation
    var tags: seq<nat>
    var pages: seq<seq<Byte>>
    var ptab: seq<int>           // bucket heads
    var pageCount: nat
    var ptabMisses: nat
    var ptabAccesses: nat

    ghost var home: seq<nat>          // bucket of each entry
    ghost var buckets: seq<seq<nat>>  // entries of each bucket, front first
    ghost var flat: seq<Byte>         // the memory this object stands for

    ghost predicate Valid()
      reads this
    {
      && |ptab| == 32768
      && Chained(home, next, ptab, buckets, NULL)
      && Maps(home, tags, pages, flat)
      && pageCount == |pages|
      && ptabMisses <= ptabAccesses
    }

    /** mem_create and mem_init. */
    constructor ()
      ensures Valid() && flat == seq(SPACE, _ => 0) && pageCount == 0
    {
      next, tags, pages, ptab := [], [], [], seq(32768, _ => NULL);
      pageCount, ptabMisses, ptabAccesses := 0, 0, 0;
      home, buckets, flat := [], seq(32768, _ => []), seq(SPACE, _ => 0);
    }

    /** Walk a bucket for the entry with this tag, remembering its predecessor. */
    method FindEntry(h: nat, tag: nat) returns (prev: int, pte: int, ghost k: nat)
      requires Valid() && h < 32768
      ensures k <= |buckets[h]| && pte == At(buckets[h], k) && prev == At(buckets[h], k - 1)
      ensures pte != NULL ==> 0 <= pte < |tags| && tags[pte] == tag && home[pte] == h
      ensures pte == NULL ==> forall x :: 0 <= x < |home| && home[x] == h ==> tags[x] != tag
    {
      ghost var nodes := buckets[h];
      assert IsChain(next, ptab[h], nodes);
      assert forall q :: 0 <= q < |nodes| ==> nodes[q] in nodes;
      prev, pte, k := NULL, ptab[h], 0;
      while pte != NULL && tags[pte] != tag
        invariant k <= |nodes| && pte == At(nodes, k) && prev == At(nodes, k - 1)
        invariant forall q :: 0 <= q < k ==> tags[nodes[q]] != tag
        decreases |nodes| - k
      {
        assert next[nodes[k]] == At(nodes, k + 1);
        prev, pte := pte, next[pte];
        k := k + 1;
      }
      assert forall x :: 0 <= x < |home| && home[x] == h ==> x in nodes;
    }

    /** mem_translate: the entry found moves to the front of its bucket. */
    method Translate(addr: nat) returns (pte: int)
      requires Valid() && addr < SPACE
      modifies this`next, this`ptab, this`ptabMisses, this`ptabAccesses, this`buckets
      ensures Valid()
      ensures pte == NULL <==> !Mapped(home, tags, addr / 4096)
      ensures pte != NULL ==> 0 <= pte < |pages| && PageNo(tags[pte], home[pte]) == addr / 4096
    {
      ptabMisses, ptabAccesses := ptabMisses + 1, ptabAccesses + 1;
      var h, tag := PtabSet(addr), PtabTag(addr);
      var prev;
      ghost var k;
      prev, pte, k := FindEntry(h, tag);
      EntryMeans(home, tags, addr, pte);
      if pte != NULL && prev != NULL {
        Relink(h, prev, pte, k);
      }
    }

    /** Move the entry at position k of a bucket to its front. */
    method Relink(h: nat, prev: nat, pte: nat, ghost k: nat)
      requires Valid() && h < 32768 && 0 < k < |buckets[h]| && pte == buckets[h][k] && prev == buckets[h][k - 1]
      modifies this`next, this`ptab, this`buckets
      ensures Valid()
    {
      ghost var nodes := buckets[h];
      MoveToFront(home, next, ptab, buckets, h, k);
      next := next[prev := next[pte]];
      next := next[pte := ptab[h]];
      ptab := ptab[h := pte];
      buckets := buckets[h := [nodes[k]] + RemoveAt(nodes, k)];
    }

    /** MEM_PAGE: try the front of the bucket first. */
    method Page(addr: nat) returns (pte: int)
      requires Valid() && addr < SPACE
      modifies this`next, this`ptab, this`ptabMisses, this`ptabAccesses, this`buckets
      ensures Valid()
      ensures pte == NULL <==> !Mapped(home, tags, addr / 4096)
      ensures pte != NULL ==> 0 <= pte < |pages| && PageNo(tags[pte], home[pte]) == addr / 4096
    {
      var h := PtabSet(addr);
      ghost var nodes := buckets[h];
      assert IsChain(next, ptab[h], nodes);
      assert nodes != [] ==> nodes[0] in nodes;
      if ptab[h] != NULL && tags[ptab[h]] == PtabTag(addr) {
        ptabAccesses := ptabAccesses + 1;
        pte := ptab[h];
        EntryMeans(home, tags, addr, pte);
      } else {
        pte := Translate(addr);
      }
    }

    /** mem_newpage. */
    method NewPage(addr: nat)
      requires Valid() && addr < SPACE && !Mapped(home, tags, addr / 4096)
      modifies this`next, this`ptab, this`tags, this`pages, this`pageCount, this`home, this`buckets
      ensures Valid() && pageCount == old(pageCount) + 1 && Mapped(home, tags, addr / 4096)
    {
      var h, tag := PtabSet(addr), PtabTag(addr);
      ghost var n := |home|;
      PageSplit(addr);
      PushNew(home, next, ptab, buckets, h);
      NewPageMaps(home, tags, pages, flat, addr / 4096);
      buckets := buckets[h := [|next|] + buckets[h]];
      next, ptab := next + [ptab[h]], ptab[h := |next|];
      tags, pages, home := tags + [tag], pages + [ZeroPage()], home + [h];
      pageCount := pageCount + 1;
      assert home[n] == (addr / 4096) % 32768 && tags[n] == (addr / 4096) / 32768;
    }

    /** MEM_READ_BYTE: an unallocated page reads as zero and is not allocated. */
    method ReadByte(addr: nat) returns (v: Byte)
      requires Valid() && addr < SPACE
      modifies this`next, this`ptab, this`ptabMisses, this`ptabAccesses, this`buckets
      ensures Valid() && v == flat[addr]
    {
      PageByte(flat, addr);
      var pte := Page(addr);
      if pte == NULL {
        v := 0;
      } else {
        pte := Page(addr);
        v := pages[pte][addr % 4096];
      }
    }

    /** MEM_WRITE_BYTE: a page is allocated when it is first written. */
    method WriteByte(addr: nat, v: Byte)
      requires Valid() && addr < SPACE
      modifies this
      ensures Valid() && flat == Put(old(flat), addr, v)
      ensures pageCount == old(pageCount) + if old(Mapped(home, tags, addr / 4096)) then 0 else 1
    {
      var pte := Page(addr);
      if pte == NULL {
        NewPage(addr);
      }
      pte := Page(addr);
      Store(pte, addr, v);
    }

    /** One byte into the page of its address. */
    method Store(pte: nat, addr: nat, v: Byte)
      requires Valid() && addr < SPACE && pte < |pages| && PageNo(tags[pte], home[pte]) == addr / 4096
      modifies this`pages, this`flat
      ensures Valid() && flat == Put(old(flat), addr, v)
    {
      WriteMaps(home, tags, pages, flat, pte, addr, v);
      pages := pages[pte := Put(pages[pte], addr % 4096, v)];
      flat := Put(flat, addr, v);
    }

    /** mem_access; `buf` is the host buffer. */
    method Access(cmd: Cmd, addr: nat, buf: seq<Byte>) returns (fault: Fault, buf': seq<Byte>)
      requires Valid() && addr < SPACE
      modifies this
      ensures Valid() && Copied(fault, flat, buf') == AccessSpec(old(flat), cmd, addr, buf)
    {
      var n := |buf|;
      buf' := buf;
      if !PassesSizeTest(n) || n > 4096 {
        fault := AccessFault;
        return;
      }
      if !PassesAlignTest(addr, n) {
        fault := AlignmentFault;
        return;
      }
      if cmd == Read {
        buf' := ReadBytes(addr, n);
      } else {
        WriteBytes(addr, buf);
      }
      fault := NoFault;
    }

    /** The read loop of mem_access. */
    method ReadBytes(addr: nat, n: nat) returns (buf: seq<Byte>)
      requires Valid() && addr < SPACE
      modifies this`next, this`ptab, this`ptabMisses, this`ptabAccesses, this`buckets
      ensures Valid() && buf == ReadWrap(flat, addr, n)
    {
      var a, i := addr, 0;
      buf := [];
      while i < n
        invariant 0 <= i <= n && a == Wrap(addr + i)
        invariant Valid() && buf == ReadWrap(flat, addr, i)
      {
        var v := ReadByte(a);
        buf := buf + [v];
        WrapAdd(addr + i, 1);
        a, i := Wrap(a + 1), i + 1;
      }
    }

    /** The write loop of mem_access. */
    method WriteBytes(addr: nat, buf: seq<Byte>)
      requires Valid() && addr < SPACE
      modifies this
      ensures Valid() && flat == WriteWrap(old(flat), addr, buf)
    {
      ghost var f := flat;
      var a, i := addr, 0;
      while i < |buf|
        invariant 0 <= i <= |buf| && a == Wrap(addr + i)
        invariant Valid() && flat == WriteWrap(f, addr, buf[..i])
      {
        WriteByte(a, buf[i]);
        WriteOne(f, addr, buf, i);
        a, i := Wrap(a + 1), i + 1;
      }
      assert buf[..i] == buf;
    }

    /** mem_bcopy with mem_access as accessor: one call a byte. */
    method Bcopy(cmd: Cmd, addr: nat, buf: seq<Byte>) returns (fault: Fault, buf': seq<Byte>)
      requires Valid() && addr < SPACE
      modifies this
      ensures Valid() && Copied(fault, flat, buf') == Copy(old(flat), cmd, addr, buf)
    {
      ghost var f := flat;
      var a, i := addr, 0;
      buf' := [];
      while i < |buf|
        invariant 0 <= i <= |buf| && a == Wrap(addr + i)
        invariant Valid() && Copied(NoFault, flat, buf') == Copy(f, cmd, addr, buf[..i])
      {
        var one;
        ByteStep(f, cmd, addr, buf, i);
        fault, one := Access(cmd, a, [buf[i]]);
        if fault != NoFault {
          return;
        }
        buf' := buf' + one;
        a, i := Wrap(a + 1), i + 1;
      }
      assert buf[..i] == buf;
      fault := NoFault;
    }

    /** mem_bcopy4 with mem_access as accessor: one call a word. */
    method Bcopy4(cmd: Cmd, addr: nat, buf: seq<Byte>) returns (fault: Fault, buf': seq<Byte>)
      requires Valid() && addr < SPACE
      modifies this
      ensures Valid() && Copied(fault, flat, buf') == Bcopy4Spec(old(flat), cmd, addr, buf)
    {
      ghost var f := flat;
      var a, i, words := addr, 0, |buf| / 4;
      buf' := [];
      while words > 0
        invariant 0 <= words <= |buf| / 4 && i == 4 * (|buf| / 4 - words) && a == Wrap(addr + i)
        invariant Valid() && Copied(NoFault, flat, buf') == Copy(f, cmd, addr, buf[..i])
        invariant i > 0 ==> addr % 4 == 0
      {
        var word;
        WordStep(f, cmd, addr, buf, i);
        fault, word := Access(cmd, a, buf[i..i + 4]);
        if fault != NoFault {
          assert buf[..0] == [];
          buf' := buf;
          return;
        }
        buf' := buf' + word;
        a, i, words := Wrap(a + 4), i + 4, words - 1;
      }
      Bcopy4Done(f, cmd, addr, buf, i, flat, buf');
      fault, buf' := NoFault, buf' + buf[i..];
    }
  }

  lemma Bcopy4Done(f: seq<Byte>, cmd: Cmd, addr: nat, buf: seq<Byte>, i: nat, flat: seq<Byte>, buf': seq<Byte>)
    requires |f| == SPACE && i == |buf| - |buf| % 4 && (i > 0 ==> addr % 4 == 0)
    requires Copied(NoFault, flat, buf') == Copy(f, cmd, addr, buf[..i])
    ensures Copied(NoFault, flat, buf' + buf[i..]) == Bcopy4Spec(f, cmd, addr, buf)
  {
    if i == 0 {
      assert buf[..0] == [] && buf[0..] == buf && buf' == [];
    }
  }

  lemma WordAligned(addr: nat, i: nat)
    requires i % 4 == 0
    ensures Wrap(addr + i) % 4 == addr % 4
  {
  }

  lemma WordAccess(flat: seq<Byte>, cmd: Cmd, a: nat, w: seq<Byte>)
    requires |flat| == SPACE && |w| == 4
    ensures AccessSpec(flat, cmd, a, w) == if a % 4 == 0 then Copy(flat, cmd, a, w) else Copied(AlignmentFault, flat, w)
  {
    assert IsPow2(4);
  }

  lemma ByteAccess(flat: seq<Byte>, cmd: Cmd, a: nat, v: Byte)
    requires |flat| == SPACE
    ensures AccessSpec(flat, cmd, a, [v]) == Copy(flat, cmd, a, [v])
  {
  }

  /** One byte more of a byte copy. */
  lemma ByteStep(f: seq<Byte>, cmd: Cmd, addr: nat, buf: seq<Byte>, i: nat)
    requires |f| == SPACE && i < |buf|
    ensures Wrap(Wrap(addr + i) + 1) == Wrap(addr + (i + 1))
    ensures var g := Copy(f, cmd, addr, buf[..i]);
            var r := AccessSpec(g.flat, cmd, Wrap(addr + i), [buf[i]]);
            r.fault == NoFault && Copy(f, cmd, addr, buf[..i + 1]) == Copied(NoFault, r.flat, g.buf + r.buf)
  {
    WrapAdd(addr + i, 1);
    ByteAccess(Copy(f, cmd, addr, buf[..i]).flat, cmd, Wrap(addr + i), buf[i]);
    CopyStep(f, cmd, addr, buf[..i], [buf[i]]);
    assert buf[..i + 1] == buf[..i] + [buf[i]];
  }

  /** One word more: it is aligned exactly when the first one is. */
  lemma WordStep(f: seq<Byte>, cmd: Cmd, addr: nat, buf: seq<Byte>, i: nat)
    requires |f| == SPACE && i % 4 == 0 && i + 4 <= |buf|
    ensures Wrap(Wrap(addr + i) + 4) == Wrap(addr + (i + 4))
    ensures var g := Copy(f, cmd, addr, buf[..i]);
            var r := AccessSpec(g.flat, cmd, Wrap(addr + i), buf[i..i + 4]);
            if addr % 4 != 0 then r == Copied(AlignmentFault, g.flat, buf[i..i + 4])
            else r.fault == NoFault && Copy(f, cmd, addr, buf[..i + 4]) == Copied(NoFault, r.flat, g.buf + r.buf)
  {
    WordAligned(addr, i);
    WordAccess(Copy(f, cmd, addr, buf[..i]).flat, cmd, Wrap(addr + i), buf[i..i + 4]);
    WrapAdd(addr + i, 4);
    CopyStep(f, cmd, addr, buf[..i], buf[i..i + 4]);
    assert buf[..i + 4] == buf[..i] + buf[i..i + 4];
  }

  /** Two copies in a row are one copy. */
  lemma CopyStep(f: seq<Byte>, cmd: Cmd, addr: nat, a: seq<Byte>, b: seq<Byte>)
    requires |f| == SPACE
    ensures var r := Copy(Copy(f, cmd, addr, a).flat, cmd, Wrap(addr + |a|), b);
            Copy(f, cmd, addr, a + b) == Copied(NoFault, r.flat, Copy(f, cmd, addr, a).buf + r.buf)
  {
    if cmd.Read? {
      var x, y := ReadWrap(f, addr, |a| + |b|), ReadWrap(f, Wrap(addr + |a|), |b|);
      forall k | 0 <= k < |b|
        ensures y[k] == x[|a| + k]
      {
        WrapAdd(addr + |a|, k);
      }
      assert x == ReadWrap(f, addr, |a|) + y;
    } else {
      WriteWrapAppend(f, addr, a, b);
    }
  }
}
