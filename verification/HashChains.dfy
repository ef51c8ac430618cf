/** Tables of singly linked bucket chains over one pool of nodes, as the cache's
    hash tables and the simulated memory's page table use them. */
module HashChains {
  import opened Recency
  import opened Links

  ghost predicate AllChains(next: seq<int>, heads: seq<int>, chains: seq<seq<nat>>) {
    |heads| == |chains| && forall h :: 0 <= h < |chains| ==> IsChain(next, heads[h], chains[h])
  }

  /** Every node but `off` is on exactly one chain, the one of its bucket. */
  ghost predicate Members(bucket: seq<nat>, chains: seq<seq<nat>>, off: int) {
    && (forall h, x: nat {:trigger x in chains[h]} :: 0 <= h < |chains| && x in chains[h] ==>
          x < |bucket| && bucket[x] == h && x != off)
    && (forall w: nat :: w < |bucket| && w != off ==> bucket[w] < |chains| && w in chains[bucket[w]])
  }

  ghost predicate Chained(bucket: seq<nat>, next: seq<int>, heads: seq<int>, chains: seq<seq<nat>>, off: int) {
    |bucket| == |next| && AllChains(next, heads, chains) && Members(bucket, chains, off)
  }

  /** Changing the links of two nodes a chain does not contain keeps the chain. */
  lemma AvoidsBlock(next: seq<int>, next': seq<int>, head: int, nodes: seq<nat>, x: nat, y: int)
    requires IsChain(next, head, nodes) && x !in nodes && (y == NULL || y !in nodes) && |next'| == |next|
    requires forall z :: 0 <= z < |next| && z != x && z != y ==> next'[z] == next[z]
    ensures IsChain(next', head, nodes)
  {
    assert forall k :: 0 <= k < |nodes| ==> nodes[k] in nodes;
    ChainFrame(next, next', head, nodes);
  }

  lemma UnlinkMembers(bucket: seq<nat>, chains: seq<seq<nat>>, blk: nat, rest: seq<nat>)
    requires Members(bucket, chains, NULL) && blk < |bucket|
    requires forall y :: y in rest <==> y in chains[bucket[blk]] && y != blk
    ensures Members(bucket, chains[bucket[blk] := rest], blk)
  {
    var g := bucket[blk];
    var chains' := chains[g := rest];
    forall h, x: nat | 0 <= h < |chains'| && x in chains'[h]
      ensures x < |bucket| && bucket[x] == h && x != blk
    {
      assert x in chains[h];
    }
    forall w: nat | w < |bucket| && w != blk
      ensures bucket[w] < |chains'| && w in chains'[bucket[w]]
    {
      assert w in chains[bucket[w]];
    }
  }

  lemma LinkMembers(bucket: seq<nat>, chains: seq<seq<nat>>, blk: nat)
    requires Members(bucket, chains, blk) && blk < |bucket| && bucket[blk] < |chains|
    ensures Members(bucket, chains[bucket[blk] := [blk] + chains[bucket[blk]]], NULL)
  {
    var h := bucket[blk];
    var chains' := chains[h := [blk] + chains[h]];
    forall g, x: nat | 0 <= g < |chains'| && x in chains'[g]
      ensures x < |bucket| && bucket[x] == g && x != NULL
    {
      assert x == blk || x in chains[g];
    }
    forall w: nat | w < |bucket|
      ensures bucket[w] < |chains'| && w in chains'[bucket[w]]
    {
      assert w == blk || w in chains[bucket[w]];
    }
  }

  /** The node that is off all chains may change its bucket. */
  lemma OffBucketFree(bucket: seq<nat>, next: seq<int>, heads: seq<int>, chains: seq<seq<nat>>, w: nat, b: nat)
    requires w < |bucket| && Chained(bucket, next, heads, chains, w)
    ensures Chained(bucket[w := b], next, heads, chains, w)
  {
    var bucket' := bucket[w := b];
    forall h, x: nat | 0 <= h < |chains| && x in chains[h]
      ensures x < |bucket'| && bucket'[x] == h && x != w
    {
      assert bucket[x] == h;
    }
    forall v: nat | v < |bucket'| && v != w
      ensures bucket'[v] < |chains| && v in chains[bucket'[v]]
    {
      assert bucket'[v] == bucket[v];
    }
  }

  /** Relinking the node at position k of chain h to the front of that chain. */
  lemma MoveToFront(bucket: seq<nat>, next: seq<int>, heads: seq<int>, chains: seq<seq<nat>>, h: nat, k: nat)
    requires Chained(bucket, next, heads, chains, NULL) && h < |chains| && 0 < k < |chains[h]|
    ensures var x, p := chains[h][k], chains[h][k - 1];
            && x < |next| && p < |next|
            && Chained(bucket, next[p := next[x]][x := heads[h]], heads[h := x],
                       chains[h := [x] + RemoveAt(chains[h], k)], NULL)
  {
    var nodes := chains[h];
    assert IsChain(next, heads[h], nodes);
    var x, p, rest := nodes[k], nodes[k - 1], RemoveAt(nodes, k);
    ChainUnlink(next, heads[h], nodes, k);
    RemoveAtDistinct(nodes, k);
    ChainPush(next[p := next[x]], heads[h], rest, x);
    var next', chains' := next[p := next[x]][x := heads[h]], chains[h := [x] + rest];
    forall g | 0 <= g < |chains| && g != h
      ensures IsChain(next', heads[g], chains[g])
    {
      assert x in nodes && p in nodes;
      AvoidsBlock(next, next', heads[g], chains[g], x, p);
    }
    MembersSame(bucket, chains, h, [x] + rest);
  }

  lemma MembersSame(bucket: seq<nat>, chains: seq<seq<nat>>, h: nat, nodes: seq<nat>)
    requires Members(bucket, chains, NULL) && h < |chains|
    requires forall y :: y in nodes <==> y in chains[h]
    ensures Members(bucket, chains[h := nodes], NULL)
  {
    var chains' := chains[h := nodes];
    forall g, x: nat | 0 <= g < |chains'| && x in chains'[g]
      ensures x < |bucket| && bucket[x] == g && x != NULL
    {
      assert x in chains[g];
    }
    forall w: nat | w < |bucket|
      ensures bucket[w] < |chains'| && w in chains'[bucket[w]]
    {
      assert w in chains[bucket[w]];
    }
  }

  /** Appending a node to the pool and pushing it on chain h. */
  lemma PushNew(bucket: seq<nat>, next: seq<int>, heads: seq<int>, chains: seq<seq<nat>>, h: nat)
    requires Chained(bucket, next, heads, chains, NULL) && h < |chains|
    ensures Chained(bucket + [h], next + [heads[h]], heads[h := |next|], chains[h := [|next|] + chains[h]], NULL)
  {
    var x, next' := |next|, next + [heads[h]];
    var bucket', chains' := bucket + [h], chains[h := [x] + chains[h]];
    assert forall g :: 0 <= g < |chains| ==> x !in chains[g];
    forall g | 0 <= g < |chains|
      ensures IsChain(next + [NULL], heads[g], chains[g])
    {
      assert forall k :: 0 <= k < |chains[g]| ==> chains[g][k] in chains[g];
      ChainFrame(next, next + [NULL], heads[g], chains[g]);
    }
    assert next' == (next + [NULL])[x := heads[h]];
    ChainPush(next + [NULL], heads[h], chains[h], x);
    forall g | 0 <= g < |chains| && g != h
      ensures IsChain(next', heads[g], chains[g])
    {
      AvoidsBlock(next + [NULL], next', heads[g], chains[g], x, NULL);
    }
    forall g, y: nat | 0 <= g < |chains'| && y in chains'[g]
      ensures y < |bucket'| && bucket'[y] == g && y != NULL
    {
      assert y == x || y in chains[g];
    }
    forall w: nat | w < |bucket'|
      ensures bucket'[w] < |chains'| && w in chains'[bucket'[w]]
    {
      assert w == x || w in chains[bucket[w]];
    }
  }
}
