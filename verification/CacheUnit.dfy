/** struct cache_t as an object: links, hash chains, last-block shortcut,
    counters and bus updated in place.  Every operation refines CacheModel. */
module CacheUnit {
  import opened Pow2
  import opened FlatMemory
  import opened Recency
  import opened Links
  import opened HashChains
  import opened CacheModel
  import opened Options
  import opened CacheTransparency
  import opened CacheLists

  /** Set j follows the model; in set i block `off` may be off its chain. */
  ghost predicate SetAt(c: Config, sets: seq<SetRec>, ms: seq<WaySet>, chains: seq<seq<seq<nat>>>, i: int, off: int,
                        j: int)
    requires 0 <= j < |sets| == |ms| == |chains|
  {
    SetRel(c, sets[j], ms[j], chains[j], if j == i then off else NULL)
  }

  ghost predicate AllSets(c: Config, sets: seq<SetRec>, ms: seq<WaySet>, chains: seq<seq<seq<nat>>>, i: int, off: int) {
    && |sets| == |ms| == |chains| == c.nsets
    && forall j :: 0 <= j < c.nsets ==> SetAt(c, sets, ms, chains, i, off, j)
  }

  /** Updating one set and its chains. */
  lemma AllSetsUpdate(c: Config, sets: seq<SetRec>, ms: seq<WaySet>, chains: seq<seq<seq<nat>>>, i: nat, off: int,
                      r: SetRec, ws: WaySet, ch: seq<seq<nat>>, off': int)
    requires AllSets(c, sets, ms, chains, i, off) && i < c.nsets && SetRel(c, r, ws, ch, off')
    ensures AllSets(c, sets[i := r], ms[i := ws], chains[i := ch], i, off')
  {
    var sets', ms', chains' := sets[i := r], ms[i := ws], chains[i := ch];
    forall j | 0 <= j < c.nsets
      ensures SetAt(c, sets', ms', chains', i, off', j)
    {
      assert SetAt(c, sets, ms, chains, i, off, j);
    }
  }

  /** Updating one set whose chains stay. */
  lemma AllSetsKeep(c: Config, sets: seq<SetRec>, ms: seq<WaySet>, chains: seq<seq<seq<nat>>>, i: nat, off: int,
                    r: SetRec, ws: WaySet)
    requires AllSets(c, sets, ms, chains, i, off) && i < c.nsets && SetRel(c, r, ws, chains[i], off)
    ensures AllSets(c, sets[i := r], ms[i := ws], chains, i, off)
  {
    AllSetsUpdate(c, sets, ms, chains, i, off, r, ws, chains[i], off);
    assert chains[i := chains[i]] == chains;
  }

  lemma NoneOff(c: Config, sets: seq<SetRec>, ms: seq<WaySet>, chains: seq<seq<seq<nat>>>, i: int, i': int)
    requires AllSets(c, sets, ms, chains, i, NULL)
    ensures AllSets(c, sets, ms, chains, i', NULL)
  {
    forall j: nat | j < c.nsets
      ensures SetAt(c, sets, ms, chains, i', NULL, j)
    {
      assert SetAt(c, sets, ms, chains, i, NULL, j);
    }
  }

  /** The remembered block is valid, is the one with the remembered address,
      and under LRU heads the way list of its set. */
  ghost predicate LastOk(c: Config, s: State, lastTagset: nat, lastSet: nat, lastBlk: int)
    requires Shape(c, s)
  {
    match s.last
    case None => lastTagset == 0 && lastBlk == NULL
    case Some(b) =>
      && lastTagset == b * c.bsize
      && lastSet < c.nsets && 0 <= lastBlk < c.assoc
      && s.sets[lastSet].lines[lastBlk].valid
      && MkBlock(c, s.sets[lastSet].lines[lastBlk].tag, lastSet) == b
      && (c.policy.LRU? ==> s.sets[lastSet].order[0] == lastBlk)
  }

  class Cache {
    const c: Config
    var sets: seq<SetRec>
    var mem: seq<Byte>      // the next level, behind blk_access_fn
    var calls: nat          // block access calls made, selecting the next latency
    var busFree: int
    var hits: nat
    var misses: nat
    var replacements: nat
    var writebacks: nat
    var invalidations: nat
    var lastTagset: nat
    var lastSet: nat        // lastSet and lastBlk together are the last_blk pointer
    var lastBlk: int

    ghost var model: State
    ghost var chains: seq<seq<seq<nat>>>

    /** Everything but the sets and the last block. */
    ghost predicate Counters()
      reads this
    {
      && mem == model.mem && calls == model.calls && busFree == model.busFree
      && hits == model.hits && misses == model.misses && replacements == model.replacements
      && writebacks == model.writebacks && invalidations == model.invalidations
    }

    /** The object follows the model; in set i block `off` is off its chain. */
    ghost predicate Follows(i: int, off: int)
      reads this
    {
      Shape(c, model) && Counters() && AllSets(c, sets, model.sets, chains, i, off)
    }

    ghost predicate Valid()
      reads this
    {
      Inv(c, model) && Follows(0, NULL) && LastOk(c, model, lastTagset, lastSet, lastBlk)
    }

    /** cache_create. */
    constructor (config: Config, memory: seq<Byte>)
      requires ValidConfig(config) && |memory| == SPACE
      ensures Valid() && c == config && model == Initial(config, memory)
    {
      c := config;
      mem := memory;
      calls, busFree := 0, 0;
      hits, misses, replacements, writebacks, invalidations := 0, 0, 0, 0, 0;
      lastTagset, lastSet, lastBlk := 0, 0, NULL;
      model := Initial(config, memory);
      var all: seq<SetRec> := [];
      ghost var chs: seq<seq<seq<nat>>> := [];
      ghost var empty := WaySet(Countdown(config.assoc), EmptyLines(config));
      var i := 0;
      while i < config.nsets
        invariant 0 <= i <= config.nsets && |all| == |chs| == i
        invariant forall j :: 0 <= j < i ==> SetRel(config, all[j], empty, chs[j], NULL)
      {
        var r, ch := CreateSet(config);
        all, chs := all + [r], chs + [ch];
        i := i + 1;
      }
      sets, chains := all, chs;
      new;
      assert forall j :: 0 <= j < config.nsets ==> model.sets[j] == empty;
      assert forall j :: 0 <= j < config.nsets ==> SetAt(c, sets, model.sets, chains, 0, NULL, j);
      InitialCoherent(config, memory);
    }

    // ---- pieces of cache_access ----

    /** Copy to or from the block and update its dirty status. */
    method TouchBlock(i: nat, w: nat, o: nat, cmd: Cmd, ghost off: int) returns (data: seq<Byte>)
      requires Follows(i, off) && i < c.nsets && w < c.assoc && o + cmd.Size() <= c.bsize && PassesSizeTest(cmd.Size())
      modifies this`sets, this`model
      ensures Follows(i, off) && model == Touch(c, old(model), i, w, o, cmd)
      ensures data == if cmd.Read? then old(model).sets[i].lines[w].data[o..o + cmd.n] else []
    {
      var r := sets[i];
      assert SetAt(c, sets, model.sets, chains, i, off, i);
      match cmd {
        case Read(n) =>
          data := CopyOut(r.lines[w].data, o, n);
        case Write(bytes) =>
          data := [];
          var line := r.lines[w];
          var copied := CopyIn(line.data, o, bytes);
          line := line.(data := copied, dirty := true);
          SameTagSet(c, r, model.sets[i], chains[i], off, w, line);
          ghost var s := Touch(c, model, i, w, o, cmd);
          AllSetsKeep(c, sets, model.sets, chains, i, off, r.(lines := r.lines[w := line]), s.sets[i]);
          sets := sets[i := r.(lines := r.lines[w := line])];
          model := s;
      }
    }

    /** update_way_list on set i. */
    method MoveWay(i: nat, w: nat, where: Place)
      requires Follows(i, NULL) && i < c.nsets && w < c.assoc
      modifies this`sets, this`model
      ensures Follows(i, NULL)
      ensures model == if where.Head? then MoveToHead(c, old(model), i, w) else MoveToTail(c, old(model), i, w)
    {
      var r := sets[i];
      assert SetAt(c, sets, model.sets, chains, i, NULL, i);
      PermMove(model.sets[i].order, c.assoc, w);
      var ways := UpdateWayList(r.ways, w, where, model.sets[i].order);
      ghost var s := if where.Head? then MoveToHead(c, model, i, w) else MoveToTail(c, model, i, w);
      AllSetsKeep(c, sets, model.sets, chains, i, NULL, r.(ways := ways), s.sets[i]);
      sets := sets[i := r.(ways := ways)];
      model := s;
    }

    /** Take block w off its chain, if the set has chains. */
    method Unchain(i: nat, w: nat)
      requires Follows(i, NULL) && i < c.nsets && w < c.assoc
      modifies this`sets, this`chains
      ensures Follows(i, w)
    {
      var r := sets[i];
      ghost var ch := chains[i];
      assert SetAt(c, sets, model.sets, chains, i, NULL, i);
      if HashSize(c) > 0 {
        var hashNext, hash;
        hashNext, hash, ch := UnlinkHash(HashIndex(c, r.lines[w].tag), r.hashNext, r.hash, w, Buckets(c, r.lines), ch);
        r := r.(hashNext := hashNext, hash := hash);
      }
      AllSetsUpdate(c, sets, model.sets, chains, i, NULL, r, model.sets[i], ch, w);
      assert model.sets[i := model.sets[i]] == model.sets;
      sets, chains := sets[i := r], chains[i := ch];
    }

    /** Put block w on the chain of its present tag, if the set has chains. */
    method Rechain(i: nat, w: nat)
      requires Follows(i, w) && i < c.nsets && w < c.assoc
      modifies this`sets, this`chains
      ensures Follows(i, NULL)
    {
      var r := sets[i];
      ghost var ch := chains[i];
      assert SetAt(c, sets, model.sets, chains, i, w, i);
      if HashSize(c) > 0 {
        var index := HashIndex(c, r.lines[w].tag);
        assert Buckets(c, r.lines)[w] == index;
        var hashNext, hash := LinkHash(index, r.hashNext, r.hash, w, ch);
        LinkMembers(Buckets(c, r.lines), ch, w);
        ch := ch[index := [w] + ch[index]];
        r := r.(hashNext := hashNext, hash := hash);
      }
      AllSetsUpdate(c, sets, model.sets, chains, i, w, r, model.sets[i], ch, NULL);
      assert model.sets[i := model.sets[i]] == model.sets;
      sets, chains := sets[i := r], chains[i := ch];
    }

    /** If the block being replaced is valid, wait for it and for the bus, and
        write it back when dirty; the block itself is left as it is. */
    method WriteBackVictim(i: nat, w: nat, now: int) returns (lat: int, replAddr: nat)
      requires Follows(i, w) && i < c.nsets && w < c.assoc
      modifies this`mem, this`calls, this`busFree, this`replacements, this`writebacks
      ensures var e := Evict(c, model, i, w, now);
              && mem == e.state.mem && calls == e.state.calls && busFree == e.state.busFree
              && replacements == e.state.replacements && writebacks == e.state.writebacks
              && lat == e.lat
              && replAddr == match e.grant { case None => 0 case Some(g) => g.addr }
    {
      assert SetAt(c, sets, model.sets, chains, i, w, i);
      var line := sets[i].lines[w];
      BaddrOfBlock(c, line.tag, i);
      InRange(c, MkBlock(c, line.tag, i));
      lat, replAddr := 0, 0;
      if line.valid {
        replacements := replacements + 1;
        replAddr := MkBaddr(c, line.tag, i);
        lat := lat + Bound(line.ready - now);
        lat := lat + Bound(busFree - (now + lat));
        busFree := Max(busFree, now + lat) + 1;
        if line.dirty {
          writebacks := writebacks + 1;
          mem := Splice(mem, replAddr, line.data);
          lat, calls := lat + c.latency(calls), calls + 1;
        }
      }
    }

    /** Write the victim back and fetch the missing block in its place. */
    method Replace(i: nat, w: nat, tag: nat, now: int) returns (lat: int, replAddr: nat)
      requires Follows(i, w) && w < c.assoc && IsBlock(c, tag, i)
      modifies this`sets, this`model, this`mem, this`calls, this`busFree, this`replacements, this`writebacks
      ensures Follows(i, w)
      ensures var m := Refill(c, old(model), i, w, tag, now);
              && model == m.state && lat == m.lat
              && replAddr == match m.grant { case None => 0 case Some(g) => g.addr }
    {
      assert SetAt(c, sets, model.sets, chains, i, w, i);
      BaddrOfBlock(c, tag, i);
      InRange(c, MkBlock(c, tag, i));
      lat, replAddr := WriteBackVictim(i, w, now);
      var r, baddr := sets[i], MkBaddr(c, tag, i);
      var data := mem[baddr..baddr + c.bsize];
      lat, calls := lat + c.latency(calls), calls + 1;
      var line := Line(tag, true, false, now + lat, data);
      OffLineSet(c, r, model.sets[i], chains[i], w, line);
      RefillSets(c, model, i, w, tag, now);
      r := r.(lines := r.lines[w := line]);
      AllSetsKeep(c, sets, model.sets, chains, i, w, r, model.sets[i].(lines := r.lines));
      sets := sets[i := r];
      model := Refill(c, model, i, w, tag, now).state;
    }

    /** Count the miss, choose the block to replace and relink it. */
    method SelectVictim(i: nat) returns (repl: nat)
      requires Follows(i, NULL) && i < c.nsets
      modifies this`misses, this`sets, this`model
      ensures Follows(i, NULL) && repl == Victim(c, old(model), i) && model == MissReordered(c, old(model), i)
    {
      assert SetAt(c, sets, model.sets, chains, i, NULL, i);
      misses := misses + 1;
      model := model.(misses := model.misses + 1, last := None);
      if c.policy.Random? {
        repl := c.rand(misses - 1) % c.assoc;
      } else {
        repl := sets[i].ways.tail;
        MoveWay(i, repl, Head);
      }
    }

    /** The **MISS** part of cache_access. */
    method MissPath(i: nat, tag: nat, o: nat, cmd: Cmd, now: int) returns (data: seq<Byte>, lat: int, replAddr: nat)
      requires Follows(i, NULL) && IsBlock(c, tag, i) && o + cmd.Size() <= c.bsize && PassesSizeTest(cmd.Size())
      modifies this
      ensures Follows(i, NULL) && lastTagset == 0 && lastBlk == NULL
      ensures var r := Miss(c, old(model), i, tag, o, cmd, now);
              && model == r.state && data == r.reply.data && lat == r.reply.latency
              && replAddr == match r.reply.grant { case None => 0 case Some(g) => g.addr }
    {
      var repl := SelectVictim(i);
      Unchain(i, repl);
      lastTagset, lastBlk := 0, NULL;
      lat, replAddr := Replace(i, repl, tag, now);
      data := TouchBlock(i, repl, o, cmd, repl);
      Rechain(i, repl);
    }

    /** What both hit handlers do first: count, copy, and remember the block. */
    method HitBlock(i: nat, w: nat, b: nat, o: nat, cmd: Cmd) returns (data: seq<Byte>)
      requires Follows(i, NULL) && i < c.nsets && w < c.assoc && o + cmd.Size() <= c.bsize && PassesSizeTest(cmd.Size())
      modifies this
      ensures Follows(i, NULL) && lastTagset == b * c.bsize && lastSet == i && lastBlk == w
      ensures model == Touch(c, old(model), i, w, o, cmd).(hits := old(model).hits + 1, last := Some(b))
      ensures data == if cmd.Read? then old(model).sets[i].lines[w].data[o..o + cmd.n] else []
    {
      hits := hits + 1;
      TouchCommutes(c, model, i, w, o, cmd, hits, Some(b));
      model := model.(hits := hits, last := Some(b));
      data := TouchBlock(i, w, o, cmd, NULL);
      lastTagset, lastSet, lastBlk := b * c.bsize, i, w;
    }

    /** Under LRU a block that is not the first of its list moves to the head. */
    method Promote(i: nat, w: nat)
      requires Follows(i, NULL) && i < c.nsets && w < c.assoc
      modifies this`sets, this`model
      ensures Follows(i, NULL) && model == if c.policy.LRU? then MoveToHead(c, old(model), i, w) else old(model)
    {
      assert SetAt(c, sets, model.sets, chains, i, NULL, i);
      if c.policy.LRU? {
        if sets[i].ways.prev[w] != NULL {
          MoveWay(i, w, Head);
        } else {
          HeadStays(c, model, i, w, sets[i].ways);
        }
      }
    }

    /** The slow hit handler. */
    method SlowHit(i: nat, w: nat, b: nat, o: nat, cmd: Cmd, now: int) returns (data: seq<Byte>, lat: int)
      requires Follows(i, NULL) && i < c.nsets && w < c.assoc && o + cmd.Size() <= c.bsize && PassesSizeTest(cmd.Size())
      modifies this
      ensures Follows(i, NULL) && lastTagset == b * c.bsize && lastSet == i && lastBlk == w
      ensures var r := Hit(c, old(model), i, w, b, o, cmd, now);
              model == r.state && data == r.reply.data && lat == r.reply.latency
    {
      assert SetAt(c, sets, model.sets, chains, i, NULL, i);
      lat := Max(c.hitLatency, sets[i].lines[w].ready - now);
      data := HitBlock(i, w, b, o, cmd);
      Promote(i, w);
    }

    /** The fast hit handler: no list is touched, yet the state is that of a slow hit. */
    method FastHit(i: nat, w: nat, b: nat, o: nat, cmd: Cmd, now: int) returns (data: seq<Byte>, lat: int)
      requires Follows(i, NULL) && i < c.nsets && w < c.assoc && o + cmd.Size() <= c.bsize && PassesSizeTest(cmd.Size())
      requires c.policy.LRU? ==> model.sets[i].order[0] == w
      modifies this
      ensures Follows(i, NULL) && lastTagset == b * c.bsize && lastSet == i && lastBlk == w
      ensures var r := Hit(c, old(model), i, w, b, o, cmd, now);
              model == r.state && data == r.reply.data && lat == r.reply.latency
    {
      assert SetAt(c, sets, model.sets, chains, i, NULL, i);
      lat := Max(c.hitLatency, sets[i].lines[w].ready - now);
      data := HitBlock(i, w, b, o, cmd);
      TouchOrder(c, old(model), i, w, o, cmd);
      if c.policy.LRU? {
        FirstStays(c, model, i, w);
      }
    }

    // ---- the operations ----

    /** cache_access.  A fault leaves the object as it was. */
    method Access(cmd: Cmd, addr: nat, now: int)
      returns (fault: Option<Fault>, data: seq<Byte>, lat: int, replAddr: nat)
      requires Valid() && addr < SPACE
      modifies this
      ensures Valid()
      ensures match CacheAccess(c, old(model), cmd, addr, now)
              case Halt(f) => fault == Some(f) && model == old(model)
              case Done(s, reply) =>
                && fault == None && model == s && data == reply.data && lat == reply.latency
                && replAddr == match reply.grant { case None => 0 case Some(g) => g.addr }
    {
      data, lat, replAddr := [], 0, 0;
      fault := Refusal(cmd.Size(), addr);
      if fault.None? {
        data, lat, replAddr := Serve(cmd, addr, now);
      }
    }

    /** The checks at the top of cache_access, and what C leaves undefined. */
    method Refusal(n: nat, addr: nat) returns (fault: Option<Fault>)
      requires Valid() && addr < SPACE
      ensures fault == Refused(c, model.last.None?, addr, n)
    {
      var bofs := addr % c.bsize;
      if !(PassesSizeTest(n) && PassesAlignTest(addr, n)) {
        return Some(BadAlignment);
      }
      if Wrap(addr + n) > Wrap(addr - bofs + c.bsize) {
        return Some(SpansBlock);
      }
      LastIsBlock(c, model, lastTagset, lastSet, lastBlk, addr);
      if addr - bofs == lastTagset && lastBlk == NULL {
        return Some(NullBlock);
      }
      if bofs + n > c.bsize {
        return Some(PastBlock);
      }
      fault := None;
    }

    /** cache_access once the checks have passed. */
    method Serve(cmd: Cmd, addr: nat, now: int) returns (data: seq<Byte>, lat: int, replAddr: nat)
      requires Valid() && addr < SPACE && CacheAccess(c, model, cmd, addr, now).Done?
      modifies this
      ensures Valid()
      ensures var r := CacheAccess(c, old(model), cmd, addr, now);
              && model == r.state && data == r.reply.data && lat == r.reply.latency
              && replAddr == match r.reply.grant { case None => 0 case Some(g) => g.addr }
    {
      var tag, i, b, bofs := AddrTag(c, addr), AddrSet(c, addr), addr / c.bsize, addr % c.bsize;
      ghost var s := model;
      AddressSplit(c, addr);
      LastIsBlock(c, s, lastTagset, lastSet, lastBlk, addr);
      NoneOff(c, sets, model.sets, chains, 0, i);
      if addr - bofs == lastTagset {
        HitLast(c, s, i, lastBlk, b, bofs, cmd, now);
        data, lat := FastHit(i, lastBlk, b, bofs, cmd, now);
        replAddr := 0;
      } else {
        assert SetAt(c, sets, s.sets, chains, i, NULL, i);
        var blk := Search(c, i, sets[i], tag, s.sets[i], chains[i]);
        if blk != NULL {
          HitLast(c, s, i, blk, b, bofs, cmd, now);
          data, lat := SlowHit(i, blk, b, bofs, cmd, now);
          replAddr := 0;
        } else {
          MissLast(c, s, i, tag, bofs, cmd, now);
          data, lat, replAddr := MissPath(i, tag, bofs, cmd, now);
        }
      }
      NoneOff(c, sets, model.sets, chains, i, 0);
      AccessInv(c, s, cmd, addr, now);
    }

    /** cache_probe. */
    method Probe(addr: nat) returns (found: bool)
      requires Valid() && addr < SPACE
      ensures found <==> FindWay(model.sets[AddrSet(c, addr)].lines, AddrTag(c, addr)) < c.assoc
    {
      var i := AddrSet(c, addr);
      NoneOff(c, sets, model.sets, chains, 0, i);
      assert SetAt(c, sets, model.sets, chains, i, NULL, i);
      var blk := Search(c, i, sets[i], AddrTag(c, addr), model.sets[i], chains[i]);
      found := blk != NULL;
    }

    /** Invalidate one block, writing it back when dirty. */
    method InvalidateBlock(i: nat, w: nat) returns (lat: nat)
      requires Follows(i, NULL) && i < c.nsets && w < c.assoc
      modifies this`sets, this`model, this`mem, this`calls, this`invalidations, this`writebacks
      ensures Follows(i, NULL) && model == Invalidate(c, old(model), i, w)
      ensures lat == var l := old(model).sets[i].lines[w]; if l.valid && l.dirty then c.latency(old(model).calls) else 0
    {
      var r := sets[i];
      assert SetAt(c, sets, model.sets, chains, i, NULL, i);
      var line := r.lines[w];
      BaddrOfBlock(c, line.tag, i);
      InRange(c, MkBlock(c, line.tag, i));
      lat := 0;
      if line.valid {
        invalidations := invalidations + 1;
        SameTagSet(c, r, model.sets[i], chains[i], NULL, w, line.(valid := false));
        r := r.(lines := r.lines[w := line.(valid := false)]);
        AllSetsKeep(c, sets, model.sets, chains, i, NULL, r, model.sets[i].(lines := r.lines));
        sets := sets[i := r];
        if line.dirty {
          writebacks := writebacks + 1;
          mem := Splice(mem, MkBaddr(c, line.tag, i), line.data);
          lat, calls := c.latency(calls), calls + 1;
        }
        model := Invalidate(c, model, i, w);
      }
    }

    /** cache_flush_addr. */
    method FlushBlock(addr: nat) returns (lat: int)
      requires Valid() && addr < SPACE
      modifies this
      ensures Valid()
      ensures var r := CacheFlushAddr(c, old(model), addr); model == r.state && lat == r.reply.latency
    {
      var i := AddrSet(c, addr);
      ghost var s := model;
      FlushAddrInv(c, s, addr);
      NoneOff(c, sets, model.sets, chains, 0, i);
      assert SetAt(c, sets, s.sets, chains, i, NULL, i);
      lat := c.hitLatency;
      var blk := Search(c, i, sets[i], AddrTag(c, addr), s.sets[i], chains[i]);
      if blk != NULL {
        var l := FlushFound(i, blk);
        lat := lat + l;
      }
      NoneOff(c, sets, model.sets, chains, i, 0);
    }

    /** The block to flush was found: forget the last block, invalidate this one,
        and move it to the tail. */
    method FlushFound(i: nat, w: nat) returns (lat: nat)
      requires Follows(i, NULL) && i < c.nsets && w < c.assoc
      modifies this
      ensures Follows(i, NULL) && lastTagset == 0 && lastBlk == NULL
      ensures model == MoveToTail(c, Invalidate(c, old(model).(last := None), i, w), i, w)
      ensures lat == var l := old(model).sets[i].lines[w]; if l.valid && l.dirty then c.latency(old(model).calls) else 0
    {
      lastTagset, lastBlk := 0, NULL;
      model := model.(last := None);
      lat := InvalidateBlock(i, w);
      MoveWay(i, w, Tail);
    }

    /** One step of the flush loop: invalidate a block and follow its link. */
    method FlushNext(i: nat, w: nat, ghost k: nat) returns (lat: nat, next: int)
      requires Follows(i, NULL) && i < c.nsets && k < c.assoc && w == model.sets[i].order[k]
      modifies this`sets, this`model, this`mem, this`calls, this`invalidations, this`writebacks
      ensures Follows(i, NULL) && model == Invalidate(c, old(model), i, w)
      ensures model.sets[i].order == old(model).sets[i].order && next == At(model.sets[i].order, k + 1)
      ensures old(calls) <= calls && forall from: nat :: from <= old(calls) ==>
                LatencySum(c, from, calls) == LatencySum(c, from, old(calls)) + lat
    {
      lat := InvalidateBlock(i, w);
      assert SetAt(c, sets, model.sets, chains, i, NULL, i);
      WayNext(sets[i].ways, model.sets[i].order, k);
      next := sets[i].ways.next[w];
    }

    /** The inner loop of cache_flush, down the way list of set i. */
    method FlushSet(i: nat) returns (lat: nat)
      requires Follows(i, NULL) && i < c.nsets
      modifies this`sets, this`model, this`mem, this`calls, this`invalidations, this`writebacks
      ensures Follows(i, NULL) && model == FlushWays(c, old(model), i, c.assoc)
      ensures old(calls) <= calls && lat == LatencySum(c, old(calls), calls)
    {
      ghost var s := model;
      ghost var k := 0;
      assert SetAt(c, sets, s.sets, chains, i, NULL, i);
      var blk := sets[i].ways.head;
      lat := 0;
      while blk != NULL
        invariant 0 <= k <= c.assoc && blk == At(s.sets[i].order, k)
        invariant Follows(i, NULL) && model == FlushWays(c, s, i, k)
        invariant model.sets[i].order == s.sets[i].order
        invariant s.calls <= calls && lat == LatencySum(c, s.calls, calls)
        decreases c.assoc - k
      {
        var l;
        l, blk := FlushNext(i, blk, k);
        lat := lat + l;
        k := k + 1;
      }
    }

    /** cache_flush. */
    method FlushAll() returns (lat: int)
      requires Valid()
      modifies this
      ensures Valid()
      ensures var r := CacheFlush(c, old(model)); model == r.state && lat == r.reply.latency
    {
      CacheFlushInv(c, model);
      lastTagset, lastBlk := 0, NULL;
      model := model.(last := None);
      var l := FlushLoop();
      lat := c.hitLatency + l;
    }

    /** The outer loop of cache_flush. */
    method FlushLoop() returns (lat: nat)
      requires Follows(0, NULL)
      modifies this`sets, this`model, this`mem, this`calls, this`invalidations, this`writebacks
      ensures Follows(0, NULL) && model == FlushSets(c, old(model), c.nsets)
      ensures old(calls) <= calls && lat == LatencySum(c, old(calls), calls)
    {
      ghost var s := model;
      lat := 0;
      var i := 0;
      while i < c.nsets
        invariant 0 <= i <= c.nsets && Follows(0, NULL) && model == FlushSets(c, s, i)
        invariant s.calls <= calls && lat == LatencySum(c, s.calls, calls)
      {
        ghost var before := calls;
        var l := FlushOne(i, s);
        SumSplit(c, s.calls, before, calls);
        lat := lat + l;
        i := i + 1;
      }
    }

    /** One turn of the outer loop of cache_flush. */
    method FlushOne(i: nat, ghost s: State) returns (lat: nat)
      requires Follows(0, NULL) && i < c.nsets && Shape(c, s) && model == FlushSets(c, s, i)
      modifies this`sets, this`model, this`mem, this`calls, this`invalidations, this`writebacks
      ensures Follows(0, NULL) && model == FlushSets(c, s, i + 1)
      ensures old(calls) <= calls && lat == LatencySum(c, old(calls), calls)
    {
      NoneOff(c, sets, model.sets, chains, 0, i);
      lat := FlushSet(i);
      NoneOff(c, sets, model.sets, chains, i, 0);
    }
  }

  lemma TouchCommutes(c: Config, s: State, i: nat, w: nat, o: nat, cmd: Cmd, h: nat, l: Option<nat>)
    requires Shape(c, s) && i < c.nsets && w < c.assoc && o + cmd.Size() <= c.bsize
    ensures Touch(c, s.(hits := h, last := l), i, w, o, cmd) == Touch(c, s, i, w, o, cmd).(hits := h, last := l)
  {
  }

  lemma TouchOrder(c: Config, s: State, i: nat, w: nat, o: nat, cmd: Cmd)
    requires Shape(c, s) && i < c.nsets && w < c.assoc && o + cmd.Size() <= c.bsize
    ensures Touch(c, s, i, w, o, cmd).sets[i].order == s.sets[i].order
  {
  }

  /** A refill changes one line. */
  lemma RefillSets(c: Config, s: State, i: nat, w: nat, tag: nat, now: int)
    requires Shape(c, s) && w < c.assoc && IsBlock(c, tag, i)
    ensures var m, e := Refill(c, s, i, w, tag, now), Evict(c, s, i, w, now);
            var l := Line(tag, true, false, now + m.lat, BlockOf(c, e.state, MkBlock(c, tag, i)));
            m.state.sets == WithLine(s, i, w, l).sets
  {
    var m, e := Refill(c, s, i, w, tag, now), Evict(c, s, i, w, now);
    var l := Line(tag, true, false, now + m.lat, BlockOf(c, e.state, MkBlock(c, tag, i)));
    assert m.state == Fill(c, e.state, i, w, tag, now + m.lat);
    if s.sets[i].lines[w].valid {
      var lines := s.sets[i].lines;
      assert lines[w := lines[w].(valid := false)][w := l] == lines[w := l];
    }
  }

  lemma FirstStays(c: Config, s: State, i: nat, w: nat)
    requires Shape(c, s) && i < c.nsets && w < c.assoc && s.sets[i].order[0] == w
    ensures MoveToHead(c, s, i, w) == s
  {
    ToHeadIdentity(s.sets[i].order);
  }

  /** The last-block test picks out the block a search would find, or no block. */
  lemma LastIsBlock(c: Config, s: State, lastTagset: nat, lastSet: nat, lastBlk: int, addr: nat)
    requires Inv(c, s) && LastOk(c, s, lastTagset, lastSet, lastBlk) && addr < SPACE
    ensures lastBlk == NULL <==> s.last.None?
    ensures addr - addr % c.bsize == lastTagset && lastBlk == NULL ==> addr / c.bsize == 0
    ensures addr / c.bsize == 0 && lastBlk == NULL ==> addr - addr % c.bsize == lastTagset
    ensures addr - addr % c.bsize == lastTagset && lastBlk != NULL ==>
              && lastSet == AddrSet(c, addr) && 0 <= lastBlk < c.assoc
              && FindWay(s.sets[lastSet].lines, AddrTag(c, addr)) == lastBlk
              && (c.policy.LRU? ==> s.sets[lastSet].order[0] == lastBlk)
  {
    AddressSplit(c, addr);
    var b := addr / c.bsize;
    if s.last.Some? && addr - addr % c.bsize == lastTagset {
      SameMultiple(b, s.last.value, c.bsize);
      BlockParts(c, AddrTag(c, addr), AddrSet(c, addr), s.sets[lastSet].lines[lastBlk].tag, lastSet);
      FindUnique(s.sets[lastSet].lines, lastBlk);
    }
    SameMultiple(b, 0, c.bsize);
  }

  lemma SameMultiple(a: nat, b: nat, d: nat)
    requires d > 0
    ensures a * d == b * d ==> a == b
  {
    Apart(a, b, d);
  }

  /** After a hit the block is remembered properly. */
  lemma HitLast(c: Config, s: State, i: nat, w: nat, b: nat, o: nat, cmd: Cmd, now: int)
    requires Shape(c, s) && i < c.nsets && w < c.assoc && o + cmd.Size() <= c.bsize
    requires s.sets[i].lines[w].valid && b == MkBlock(c, s.sets[i].lines[w].tag, i)
    ensures LastOk(c, Hit(c, s, i, w, b, o, cmd, now).state, b * c.bsize, i, w)
  {
  }

  lemma MissLast(c: Config, s: State, i: nat, tag: nat, o: nat, cmd: Cmd, now: int)
    requires Shape(c, s) && IsBlock(c, tag, i) && o + cmd.Size() <= c.bsize
    ensures Miss(c, s, i, tag, o, cmd, now).state.last.None?
  {
  }

  lemma WayNext(l: WayLinks, order: seq<nat>, k: nat)
    requires IsWayList(l, order) && k < |order|
    ensures order[k] < |l.next| && l.next[order[k]] == At(order, k + 1)
  {
  }

  lemma {:induction false} SumSplit(c: Config, a: nat, m: nat, b: nat)
    requires a <= m <= b
    ensures LatencySum(c, a, b) == LatencySum(c, a, m) + LatencySum(c, m, b)
  {
    if m < b {
      SumSplit(c, a, m, b - 1);
    }
  }

  lemma CacheFlushInv(c: Config, s: State)
    requires Inv(c, s)
    ensures Inv(c, CacheFlush(c, s).state) && CacheFlush(c, s).state.last.None?
  {
    var s1 := s.(last := None);
    SameDataView(c, s, s1);
    FlushSetsInv(c, s1, c.nsets);
    FlushSetsLast(c, s1, c.nsets);
  }

  lemma {:induction false} FlushSetsInv(c: Config, s: State, i: nat)
    requires Inv(c, s) && i <= c.nsets
    ensures Inv(c, FlushSets(c, s, i))
  {
    if i > 0 {
      FlushSetsInv(c, s, i - 1);
      FlushWaysInv(c, FlushSets(c, s, i - 1), i - 1, c.assoc);
    }
  }

  lemma {:induction false} FlushWaysInv(c: Config, s: State, i: nat, k: nat)
    requires Inv(c, s) && i < c.nsets && k <= c.assoc
    ensures Inv(c, FlushWays(c, s, i, k))
  {
    if k > 0 {
      FlushWaysInv(c, s, i, k - 1);
      InvalidateInv(c, FlushWays(c, s, i, k - 1), i, s.sets[i].order[k - 1]);
    }
  }

  /** Moving the head of the way list to the head changes nothing. */
  lemma HeadStays(c: Config, s: State, i: nat, w: nat, l: WayLinks)
    requires Shape(c, s) && i < c.nsets && w < c.assoc
    requires IsWayList(l, s.sets[i].order) && |l.prev| == c.assoc && l.prev[w] == NULL
    ensures s.sets[i].order[0] == w && MoveToHead(c, s, i, w) == s
  {
    var order := s.sets[i].order;
    assert order[0] == w by {
      Covers(order, c.assoc, w);
      NodeLinks(l, order, w);
    }
    FirstStays(c, s, i, w);
  }

  lemma BaddrOfBlock(c: Config, tag: nat, i: nat)
    requires ValidConfig(c)
    ensures MkBaddr(c, tag, i) == MkBlock(c, tag, i) * c.bsize
  {
    Assoc(tag, c.nsets, c.bsize);
    Distribute(tag * c.nsets, i, c.bsize);
  }

  /** The line of the block that is off its chain may change tag as well. */
  lemma OffLineSet(c: Config, r: SetRec, ws: WaySet, chains: seq<seq<nat>>, w: nat, l: Line)
    requires SetRel(c, r, ws, chains, w) && w < |r.lines|
    ensures SetRel(c, r.(lines := r.lines[w := l]), ws.(lines := ws.lines[w := l]), chains, w)
  {
    if HashSize(c) > 0 {
      OffBucketFree(Buckets(c, r.lines), r.hashNext, r.hash, chains, w, HashIndex(c, l.tag));
      assert Buckets(c, r.lines[w := l]) == Buckets(c, r.lines)[w := HashIndex(c, l.tag)];
    }
  }

  /** Changing a line but not its tag keeps the set's links right. */
  lemma SameTagSet(c: Config, r: SetRec, ws: WaySet, chains: seq<seq<nat>>, off: int, w: nat, l: Line)
    requires SetRel(c, r, ws, chains, off) && w < |r.lines| && l.tag == r.lines[w].tag
    ensures SetRel(c, r.(lines := r.lines[w := l]), ws.(lines := ws.lines[w := l]), chains, off)
  {
    if HashSize(c) > 0 {
      assert Buckets(c, r.lines[w := l]) == Buckets(c, r.lines);
    }
  }
}
