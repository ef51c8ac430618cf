/** The list code of lab3/cache.c on one set: way lists, hash bucket chains, the
    two searches and the block copy.  Blocks of a set are allocated
    contiguously, so a block pointer is its way number. */
module CacheLists {
  import opened Pow2
  import opened FlatMemory
  import opened Recency
  import opened Links
  import opened HashChains
  import opened CacheModel
  import opened CacheTransparency

  /** struct cache_set_t with the links of its blocks. */
  datatype SetRec = SetRec(lines: seq<Line>, ways: WayLinks, hashNext: seq<int>, hash: seq<int>)

  datatype Place = Head | Tail

  /** Sets of more than four ways get a quarter as many hash buckets. */
  function HashSize(c: Config): nat {
    if c.assoc > 4 then c.assoc / 4 else 0
  }

  /** CACHE_HASH on a 32-bit key; the bucket count is a power of two. */
  function HashIndex(c: Config, key: nat): (h: nat)
    requires HashSize(c) > 0
    ensures h < HashSize(c)
  {
    var k := (key % SPACE) as bv32;
    (((k >> 24) ^ (k >> 16) ^ (k >> 8) ^ k) as nat) % HashSize(c)
  }

  // ---- way lists ----

  function Placed(order: seq<nat>, blk: nat, where: Place): seq<nat> {
    if where.Head? then ToHead(order, blk) else ToTail(order, blk)
  }

  /** update_way_list; its assertions are kept and hold. */
  method UpdateWayList(l: WayLinks, blk: nat, where: Place, ghost order: seq<nat>) returns (r: WayLinks)
    requires IsWayList(l, order) && blk in order
    ensures IsWayList(r, Placed(order, blk, where)) && |r.next| == |l.next|
  {
    ghost var rest := Remove(order, blk);
    NodeLinks(l, order, blk);
    var next, prev, head, tail := l.next, l.prev, l.head, l.tail;
    if prev[blk] == NULL && next[blk] == NULL {
      assert head == blk && tail == blk;
      SoleNode(order, blk);
      return l;
    } else if prev[blk] == NULL {
      assert head == blk && tail != blk;
      if where.Head? {
        ToHeadIdentity(order);
        return l;
      }
      UnlinkFirst(l, order);
      head := next[blk];
      prev := prev[next[blk] := NULL];
    } else if next[blk] == NULL {
      assert head != blk && tail == blk;
      if where.Tail? {
        ToTailIdentity(order);
        return l;
      }
      UnlinkLast(l, order);
      tail := prev[blk];
      next := next[prev[blk] := NULL];
    } else {
      assert head != blk && tail != blk;
      UnlinkInner(l, order, blk);
      next := next[prev[blk] := next[blk]];
      prev := prev[l.next[blk] := l.prev[blk]];
    }
    assert blk !in rest && rest != [] by { RemoveDistinct(order, blk); }
    r := LinkWay(WayLinks(next, prev, head, tail), blk, where, rest);
  }

  lemma SoleNode(order: seq<nat>, blk: nat)
    requires Distinct(order) && blk in order && order[0] == blk == order[|order| - 1]
    ensures ToHead(order, blk) == order == ToTail(order, blk)
  {
    assert order == [blk];
  }

  /** The second half of update_way_list: link the block back at one end. */
  method LinkWay(l: WayLinks, blk: nat, where: Place, ghost rest: seq<nat>) returns (r: WayLinks)
    requires IsWayList(l, rest) && rest != [] && blk < |l.next| && blk !in rest
    ensures IsWayList(r, if where.Head? then [blk] + rest else rest + [blk]) && |r.next| == |l.next|
  {
    var next, prev, head, tail := l.next, l.prev, l.head, l.tail;
    if where.Head? {
      ChainPush(next, head, rest, blk);
      BackPushHead(prev, tail, rest, blk);
      next := next[blk := head];
      prev := prev[blk := NULL];
      prev := prev[head := blk];
      head := blk;
    } else {
      ChainAppend(next, head, rest, blk);
      BackPushTail(prev, tail, rest, blk);
      prev := prev[blk := tail];
      next := next[blk := NULL];
      next := next[tail := blk];
      tail := blk;
    }
    r := WayLinks(next, prev, head, tail);
  }

  // ---- hash chains ----

  /** The bucket of each block's tag. */
  ghost function Buckets(c: Config, lines: seq<Line>): (b: seq<nat>)
    requires HashSize(c) > 0
    ensures |b| == |lines|
  {
    seq(|lines|, w requires 0 <= w < |lines| => HashIndex(c, lines[w].tag))
  }

  /** unlink_htab_ent: the walk finds the block, so its assertion holds. */
  method UnlinkHash(index: nat, hashNext0: seq<int>, hash0: seq<int>, blk: nat,
                    ghost bucket: seq<nat>, ghost chains: seq<seq<nat>>)
    returns (hashNext: seq<int>, hash: seq<int>, ghost chains': seq<seq<nat>>)
    requires Chained(bucket, hashNext0, hash0, chains, NULL) && blk < |bucket| && index == bucket[blk]
    ensures Chained(bucket, hashNext, hash, chains', blk)
    ensures |hash| == |hash0| && |hashNext| == |hashNext0|
  {
    ghost var chain := chains[index];
    assert IsChain(hashNext0, hash0[index], chain) && blk in chain;
    var prev, ent := NULL, hash0[index];
    ghost var k := 0;
    while ent != NULL && ent != blk
      invariant 0 <= k <= IndexOf(chain, blk) && ent == At(chain, k)
      invariant prev == At(chain, k - 1)
      decreases |chain| - k
    {
      assert hashNext0[chain[k]] == At(chain, k + 1);
      prev, ent := ent, hashNext0[ent];
      k := k + 1;
    }
    assert ent != NULL;
    assert k == IndexOf(chain, blk) && hashNext0[chain[k]] == At(chain, k + 1);
    hashNext, hash := hashNext0, hash0;
    if prev == NULL {
      hash := hash[index := hashNext[ent]];
      ChainPop(hashNext0, hash0[index], chain);
      assert Remove(chain, blk) == chain[1..];
    } else {
      hashNext := hashNext[prev := hashNext[ent]];
      ChainUnlink(hashNext0, hash0[index], chain, k);
    }
    UnlinkKeeps(bucket, hashNext0, hash0, chains, blk, hashNext, hash, prev);
    hashNext := hashNext[ent := NULL];
    chains' := chains[index := Remove(chain, blk)];
  }

  /** Unlinking a block leaves the other chains, and puts it on none. */
  lemma UnlinkKeeps(bucket: seq<nat>, hashNext0: seq<int>, hash0: seq<int>, chains: seq<seq<nat>>, blk: nat,
                    hashNext: seq<int>, hash: seq<int>, prev: int)
    requires Chained(bucket, hashNext0, hash0, chains, NULL) && blk < |bucket|
    requires prev == NULL || (prev >= 0 && prev in chains[bucket[blk]])
    requires |hash| == |hash0| && |hashNext| == |hashNext0|
    requires forall g :: 0 <= g < |hash| && g != bucket[blk] ==> hash[g] == hash0[g]
    requires forall x :: 0 <= x < |hashNext| && x != prev ==> hashNext[x] == hashNext0[x]
    requires IsChain(hashNext, hash[bucket[blk]], Remove(chains[bucket[blk]], blk))
    ensures Chained(bucket, hashNext[blk := NULL], hash, chains[bucket[blk] := Remove(chains[bucket[blk]], blk)], blk)
  {
    var h := bucket[blk];
    var rest, next' := Remove(chains[h], blk), hashNext[blk := NULL];
    RemoveDistinct(chains[h], blk);
    forall g | 0 <= g < |chains|
      ensures IsChain(next', hash[g], chains[h := rest][g])
    {
      if g == h {
        AvoidsBlock(hashNext, next', hash[h], rest, blk, NULL);
      } else {
        assert blk !in chains[g] && (prev == NULL || prev !in chains[g]);
        AvoidsBlock(hashNext0, next', hash[g], chains[g], blk, prev);
      }
    }
    UnlinkMembers(bucket, chains, blk, rest);
  }

  /** link_htab_ent: push the block on a chain. */
  method LinkHash(index: nat, hashNext0: seq<int>, hash0: seq<int>, blk: nat, ghost chains: seq<seq<nat>>)
    returns (hashNext: seq<int>, hash: seq<int>)
    requires AllChains(hashNext0, hash0, chains) && blk < |hashNext0| && index < |hash0|
    requires forall h :: 0 <= h < |chains| ==> blk !in chains[h]
    ensures AllChains(hashNext, hash, chains[index := [blk] + chains[index]])
    ensures |hash| == |hash0| && |hashNext| == |hashNext0|
  {
    hashNext := hashNext0[blk := hash0[index]];
    hash := hash0[index := blk];
    ChainPush(hashNext0, hash0[index], chains[index], blk);
    forall g | 0 <= g < |chains| && g != index
      ensures IsChain(hashNext, hash[g], chains[g])
    {
      AvoidsBlock(hashNext0, hashNext, hash[g], chains[g], blk, NULL);
    }
  }

  // ---- a set against its model ----

  /** The chains are those of the lines' tags; small sets have none. */
  ghost predicate HashRel(c: Config, lines: seq<Line>, hashNext: seq<int>, hash: seq<int>, chains: seq<seq<nat>>,
                          off: int) {
    && |hash| == HashSize(c)
    && (HashSize(c) > 0 ==> Chained(Buckets(c, lines), hashNext, hash, chains, off))
  }

  ghost predicate SetRel(c: Config, r: SetRec, ws: WaySet, chains: seq<seq<nat>>, off: int) {
    && r.lines == ws.lines
    && |r.ways.next| == c.assoc
    && IsWayList(r.ways, ws.order)
    && HashRel(c, r.lines, r.hashNext, r.hash, chains, off)
  }

  /** The search of cache_access, cache_probe and cache_flush_addr: by bucket
      chain in highly associative caches, down the way list in the others.
      Either finds what scanning the lines would find. */
  method Search(c: Config, i: nat, r: SetRec, tag: nat, ghost ws: WaySet,
                ghost chains: seq<seq<nat>>) returns (blk: int)
    requires ValidConfig(c) && SetShape(c, i, ws) && UniqueTags(ws.lines)
    requires SetRel(c, r, ws, chains, NULL)
    ensures blk == if FindWay(ws.lines, tag) < c.assoc then FindWay(ws.lines, tag) else NULL
  {
    ghost var k := 0;
    if HashSize(c) > 0 {
      var hindex := HashIndex(c, tag);
      ghost var chain := chains[hindex];
      ghost var bucket := Buckets(c, r.lines);
      assert IsChain(r.hashNext, r.hash[hindex], chain);
      assert forall q :: 0 <= q < |chain| ==> chain[q] in chain;
      blk := r.hash[hindex];
      while blk != NULL && !Matches(r.lines[blk], tag)
        invariant 0 <= k <= |chain| && blk == At(chain, k)
        invariant blk != NULL ==> 0 <= blk < |r.lines|
        invariant forall q :: 0 <= q < k ==> chain[q] < |r.lines| && !Matches(r.lines[chain[q]], tag)
        decreases |chain| - k
      {
        assert r.hashNext[chain[k]] == At(chain, k + 1);
        blk := r.hashNext[blk];
        k := k + 1;
      }
      ListedUnlessAbsent(ws.lines, tag, chain, k);
      ghost var w := FindWay(ws.lines, tag);
      if w < c.assoc {
        assert bucket[w] == hindex && w in chains[bucket[w]];
      }
    } else {
      ghost var order := ws.order;
      blk := r.ways.head;
      while blk != NULL && !Matches(r.lines[blk], tag)
        invariant 0 <= k <= |order| && blk == At(order, k)
        invariant forall q :: 0 <= q < k ==> !Matches(r.lines[order[q]], tag)
        decreases |order| - k
      {
        assert r.ways.next[order[k]] == At(order, k + 1);
        blk := r.ways.next[blk];
        k := k + 1;
      }
      ListedUnlessAbsent(ws.lines, tag, order, k);
      ghost var w := FindWay(ws.lines, tag);
      if w < c.assoc {
        Covers(order, c.assoc, w);
      }
    }
  }

  /** A walk that stopped at position k has found the line, or passed all of the list. */
  lemma {:induction false} ListedUnlessAbsent(lines: seq<Line>, tag: nat, nodes: seq<nat>, k: nat)
    requires UniqueTags(lines) && k <= |nodes|
    requires forall q :: 0 <= q < |nodes| && q <= k ==> nodes[q] < |lines|
    requires forall q :: 0 <= q < k ==> !Matches(lines[nodes[q]], tag)
    requires k < |nodes| ==> Matches(lines[nodes[k]], tag)
    ensures k < |nodes| ==> FindWay(lines, tag) == nodes[k]
    ensures k == |nodes| && FindWay(lines, tag) < |lines| ==> FindWay(lines, tag) !in nodes
  {
    if k < |nodes| {
      FindUnique(lines, nodes[k]);
    }
  }

  // ---- creation ----

  function Countdown(n: nat): (s: seq<nat>)
    ensures |s| == n
  {
    seq(n, k requires 0 <= k < n => n - 1 - k)
  }

  function EmptyLines(c: Config): (lines: seq<Line>)
    ensures |lines| == c.assoc
  {
    seq(c.assoc, _ => Line(0, false, false, 0, seq(c.bsize, _ => 0)))
  }

  /** Push a block on the head of a way list that may be empty. */
  method PushWay(l: WayLinks, blk: nat, ghost order: seq<nat>) returns (r: WayLinks)
    requires IsWayList(l, order) && blk < |l.next| && blk !in order
    ensures IsWayList(r, [blk] + order) && |r.next| == |l.next|
  {
    var next, prev := l.next[blk := l.head], l.prev[blk := NULL];
    ChainPush(l.next, l.head, order, blk);
    if order == [] {
      BackPushTail(l.prev, l.tail, order, blk);
      assert order + [blk] == [blk] + order;
    } else {
      BackPushHead(l.prev, l.tail, order, blk);
    }
    if l.head != NULL {
      prev := prev[l.head := blk];
    }
    r := WayLinks(next, prev, blk, if l.tail == NULL then blk else l.tail);
  }

  /** The chains of a fresh set: all blocks have tag 0, so they are on one chain. */
  ghost predicate OneChain(c: Config, chains: seq<seq<nat>>, n: nat) {
    && |chains| == HashSize(c)
    && forall h :: 0 <= h < HashSize(c) ==> chains[h] == if h == HashIndex(c, 0) then Countdown(n) else []
  }

  lemma CreatedMembers(c: Config, chains: seq<seq<nat>>)
    requires HashSize(c) > 0 && OneChain(c, chains, c.assoc)
    ensures Members(Buckets(c, EmptyLines(c)), chains, NULL)
  {
    var bucket, h0 := Buckets(c, EmptyLines(c)), HashIndex(c, 0);
    assert forall w :: 0 <= w < c.assoc ==> bucket[w] == h0;
    forall w: nat | w < c.assoc
      ensures w in chains[h0]
    {
      assert chains[h0][c.assoc - 1 - w] == w;
    }
  }

  /** Link block j, whose tag is 0, into the hash table. */
  method HashFirst(c: Config, j: nat, hashNext0: seq<int>, hash0: seq<int>, ghost chains: seq<seq<nat>>)
    returns (hashNext: seq<int>, hash: seq<int>, ghost chains': seq<seq<nat>>)
    requires HashSize(c) > 0 && AllChains(hashNext0, hash0, chains) && j < |hashNext0| && OneChain(c, chains, j)
    ensures AllChains(hashNext, hash, chains') && OneChain(c, chains', j + 1)
    ensures |hashNext| == |hashNext0| && |hash| == |hash0|
  {
    var index := HashIndex(c, 0);
    hashNext, hash := LinkHash(index, hashNext0, hash0, j, chains);
    chains' := chains[index := [j] + chains[index]];
    assert Countdown(j + 1) == [j] + Countdown(j);
  }

  /** The inner loop of cache_create: each block is linked into the hash table
      and pushed on the head of the way list. */
  method CreateSet(c: Config) returns (r: SetRec, ghost chains: seq<seq<nat>>)
    requires c.assoc > 0
    ensures SetRel(c, r, WaySet(Countdown(c.assoc), EmptyLines(c)), chains, NULL)
  {
    var ways := WayLinks(seq(c.assoc, _ => NULL), seq(c.assoc, _ => NULL), NULL, NULL);
    var hashNext, hash := seq(c.assoc, _ => NULL), seq(HashSize(c), _ => NULL);
    chains := seq(HashSize(c), _ => []);
    var j := 0;
    while j < c.assoc
      invariant 0 <= j <= c.assoc == |ways.next| == |hashNext| && |hash| == HashSize(c)
      invariant IsWayList(ways, Countdown(j))
      invariant AllChains(hashNext, hash, chains) && OneChain(c, chains, j)
    {
      assert j !in Countdown(j) && Countdown(j + 1) == [j] + Countdown(j);
      if HashSize(c) > 0 {
        hashNext, hash, chains := HashFirst(c, j, hashNext, hash, chains);
      }
      ways := PushWay(ways, j, Countdown(j));
      j := j + 1;
    }
    r := SetRec(EmptyLines(c), ways, hashNext, hash);
    if HashSize(c) > 0 {
      CreatedMembers(c, chains);
    }
  }

  // ---- block copy ----

  /** CACHE_BCOPY for Read: one access up to a word, a word at a time above. */
  method CopyOut(data: seq<Byte>, bofs: nat, n: nat) returns (p: seq<Byte>)
    requires PassesSizeTest(n) && bofs + n <= |data|
    ensures p == data[bofs..bofs + n]
  {
    if n == 1 || n == 2 || n == 4 {
      return data[bofs..bofs + n];
    }
    WholeWords(n);
    var words, o := n / 4, bofs;
    p := [];
    while words > 0
      invariant 0 <= words <= n / 4 && o == bofs + n - 4 * words
      invariant p == data[bofs..o]
    {
      p := p + data[o..o + 4];
      words, o := words - 1, o + 4;
    }
  }

  /** CACHE_BCOPY for Write. */
  method CopyIn(data: seq<Byte>, bofs: nat, bytes: seq<Byte>) returns (data': seq<Byte>)
    requires PassesSizeTest(|bytes|) && bofs + |bytes| <= |data|
    ensures data' == Splice(data, bofs, bytes)
  {
    var n := |bytes|;
    if n == 1 || n == 2 || n == 4 {
      return Splice(data, bofs, bytes);
    }
    WholeWords(n);
    var words, o := n / 4, 0;
    data' := data;
    while words > 0
      invariant 0 <= words <= n / 4 && o == n - 4 * words && |data'| == |data|
      invariant forall q :: 0 <= q < |data| ==> data'[q] == if bofs <= q < bofs + o then bytes[q - bofs] else data[q]
    {
      data' := Splice(data', bofs + o, bytes[o..o + 4]);
      words, o := words - 1, o + 4;
    }
  }

  lemma WholeWords(n: nat)
    requires PassesSizeTest(n) && n != 1 && n != 2
    ensures n % 4 == 0
  {
    if n > 0 {
      assert IsPow2(n / 2) && IsPow2(n / 2 / 2);
    }
  }
}
