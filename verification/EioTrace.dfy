/** System call traces (lab2/eio.c): the accesses of a call are recorded as
    coalesced blobs, and replaying a recorded transaction from the same state
    passes every check and gives the same state. */
module EioTrace {
  import opened Pow2
  import opened FlatMemory
  import opened Options
  import opened PagedMemory

  // The largest growth of a blob is 256 bytes (BLOB_TAIL_SIZE). Input and output
  // registers are both 2 to 7 (MD_FIRST_IN_REG to MD_LAST_IN_REG of the PISA target).

  // ---- blobs as byte logs ----

  /** One (address, blob) record of a memory list. */
  datatype Blob = Blob(addr: nat, data: seq<Byte>)

  /** One byte moved at one address. */
  datatype Cell = Cell(addr: nat, val: Byte)

  function Cells(addr: nat, data: seq<Byte>): (cs: seq<Cell>)
    ensures |cs| == |data| && forall k :: 0 <= k < |data| ==> cs[k] == Cell(Wrap(addr + k), data[k])
  {
    seq(|data|, k requires 0 <= k < |data| => Cell(Wrap(addr + k), data[k]))
  }

  function Flatten(list: seq<Blob>): seq<Cell> {
    if list == [] then []
    else Flatten(list[..|list| - 1]) + Cells(list[|list| - 1].addr, list[|list| - 1].data)
  }

  /** What an access adds to a list: it extends the last blob when it continues
      it and fits below `maxsize`, and opens a new blob otherwise. */
  function Recorded(list: seq<Blob>, maxsize: nat, addr: nat, data: seq<Byte>): (list': seq<Blob>) {
    if list != [] && Joins(list[|list| - 1], maxsize, addr, |data|) then
      list[..|list| - 1] + [Blob(list[|list| - 1].addr, list[|list| - 1].data + data)]
    else list + [Blob(addr, data)]
  }

  predicate Joins(last: Blob, maxsize: nat, addr: nat, n: nat) {
    Wrap(last.addr + |last.data|) == addr && |last.data| + n < maxsize
  }

  lemma CellsAppend(addr: nat, a: seq<Byte>, b: seq<Byte>)
    ensures Cells(addr, a + b) == Cells(addr, a) + Cells(Wrap(addr + |a|), b)
  {
    var whole, tail := Cells(addr, a + b), Cells(Wrap(addr + |a|), b);
    forall k | 0 <= k < |b|
      ensures whole[|a| + k] == tail[k]
    {
      CellsTail(addr, a, b, k);
    }
    CellsPrefix(addr, a, b);
    Glue(whole, Cells(addr, a), tail);
  }

  lemma CellsTail(addr: nat, a: seq<Byte>, b: seq<Byte>, k: nat)
    requires k < |b|
    ensures Cells(addr, a + b)[|a| + k] == Cells(Wrap(addr + |a|), b)[k]
  {
    WrapAdd(addr + |a|, k);
  }

  lemma CellsPrefix(addr: nat, a: seq<Byte>, b: seq<Byte>)
    ensures Cells(addr, a + b)[..|a|] == Cells(addr, a)
  {
  }

  lemma Glue<T>(whole: seq<T>, head: seq<T>, tail: seq<T>)
    requires |whole| == |head| + |tail| && whole[..|head|] == head
    requires forall k {:trigger tail[k]} :: 0 <= k < |tail| ==> whole[|head| + k] == tail[k]
    ensures whole == head + tail
  {
    assert whole[|head|..] == tail;
  }

  lemma {:induction false} FlattenSnoc(list: seq<Blob>, b: Blob)
    ensures Flatten(list + [b]) == Flatten(list) + Cells(b.addr, b.data)
  {
    assert (list + [b])[..|list|] == list;
  }

  lemma {:induction false} FlattenJoin(front: seq<Blob>, last: Blob, addr: nat, data: seq<Byte>)
    requires Wrap(last.addr + |last.data|) == addr
    ensures Flatten(front + [Blob(last.addr, last.data + data)]) == Flatten(front + [last]) + Cells(addr, data)
  {
    FlattenSnoc(front, last);
    FlattenSnoc(front, Blob(last.addr, last.data + data));
    CellsAppend(last.addr, last.data, data);
  }

  /** Coalescing loses and reorders nothing: the list flattens to the exact log. */
  lemma {:induction false} RecordedFlattens(list: seq<Blob>, maxsize: nat, addr: nat, data: seq<Byte>)
    ensures Flatten(Recorded(list, maxsize, addr, data)) == Flatten(list) + Cells(addr, data)
  {
    if list != [] && Joins(list[|list| - 1], maxsize, addr, |data|) {
      Snoc(list);
      FlattenJoin(list[..|list| - 1], list[|list| - 1], addr, data);
    } else {
      FlattenSnoc(list, Blob(addr, data));
    }
  }

  // ---- what a call does and what replaying does ----

  /** One call of the memory accessor by the system call. */
  datatype Request = Request(cmd: Cmd, addr: nat, buf: seq<Byte>)

  ghost predicate ValidRequests(reqs: seq<Request>) {
    forall q :: q in reqs ==> q.addr < SPACE
  }

  /** The guard: no read comes after a write. */
  ghost predicate Guarded(reqs: seq<Request>) {
    forall i, j :: 0 <= i < j < |reqs| && reqs[j].cmd.Read? ==> reqs[i].cmd.Read?
  }

  ghost predicate Wrote(reqs: seq<Request>) {
    exists k :: 0 <= k < |reqs| && reqs[k].cmd.Write?
  }

  lemma GuardedSnoc(reqs: seq<Request>, q: Request)
    requires Guarded(reqs)
    ensures Wrote(reqs + [q]) <==> Wrote(reqs) || q.cmd.Write?
    ensures Guarded(reqs + [q]) <==> q.cmd.Write? || !Wrote(reqs)
  {
    var all, n := reqs + [q], |reqs|;
    assert forall k :: 0 <= k < n ==> all[k] == reqs[k];
    assert all[n] == q;
  }

  lemma UnguardedPrefix(reqs: seq<Request>, n: nat)
    requires n <= |reqs| && !Guarded(reqs[..n])
    ensures !Guarded(reqs)
  {
    assert forall k :: 0 <= k < n ==> reqs[..n][k] == reqs[k];
  }

  predicate Faultless(q: Request) {
    PassesSizeTest(|q.buf|) && |q.buf| <= 4096 && PassesAlignTest(q.addr, |q.buf|)
  }

  function Served(flat: seq<Byte>, q: Request): (r: Copied)
    requires |flat| == SPACE
    ensures |r.flat| == SPACE && |r.buf| == |q.buf|
  {
    AccessSpec(flat, q.cmd, q.addr, q.buf)
  }

  /** Memory after the requests. */
  function After(flat: seq<Byte>, reqs: seq<Request>): (flat': seq<Byte>)
    requires |flat| == SPACE
    ensures |flat'| == SPACE
  {
    if reqs == [] then flat else Served(After(flat, reqs[..|reqs| - 1]), reqs[|reqs| - 1]).flat
  }

  /** The byte log of one direction: what each read returned, what each write sent. */
  function Log(flat: seq<Byte>, reqs: seq<Request>, cmd: Cmd): (cs: seq<Cell>)
    requires |flat| == SPACE
  {
    if reqs == [] then []
    else
      var n := |reqs| - 1;
      var q := reqs[n];
      Log(flat, reqs[..n], cmd)
      + if q.cmd != cmd then [] else Cells(q.addr, Served(After(flat, reqs[..n]), q).buf)
  }

  ghost predicate Matches(flat: seq<Byte>, cs: seq<Cell>)
    requires |flat| == SPACE
  {
    forall k :: 0 <= k < |cs| ==> cs[k].addr < SPACE && flat[cs[k].addr] == cs[k].val
  }

  function Apply(flat: seq<Byte>, cs: seq<Cell>): (flat': seq<Byte>)
    requires |flat| == SPACE
    ensures |flat'| == SPACE
  {
    if cs == [] then flat
    else Put(Apply(flat, cs[..|cs| - 1]), Wrap(cs[|cs| - 1].addr), cs[|cs| - 1].val)
  }

  lemma {:induction false} ApplyAppend(flat: seq<Byte>, a: seq<Cell>, b: seq<Cell>)
    requires |flat| == SPACE
    ensures Apply(flat, a + b) == Apply(Apply(flat, a), b)
  {
    if b == [] {
      assert a + b == a;
    } else {
      var n := |b| - 1;
      assert (a + b)[..|a| + n] == a + b[..n];
      ApplyAppend(flat, a, b[..n]);
    }
  }

  lemma {:induction false} ApplyCells(flat: seq<Byte>, addr: nat, data: seq<Byte>)
    requires |flat| == SPACE
    ensures Apply(flat, Cells(addr, data)) == WriteWrap(flat, addr, data)
  {
    if data != [] {
      var n := |data| - 1;
      ApplyCells(flat, addr, data[..n]);
      assert Cells(addr, data)[..n] == Cells(addr, data[..n]);
      WrapAdd(addr + n, 0);
    }
  }

  lemma MatchesAppend(flat: seq<Byte>, a: seq<Cell>, b: seq<Cell>)
    requires |flat| == SPACE
    ensures Matches(flat, a + b) <==> Matches(flat, a) && Matches(flat, b)
  {
    var c := a + b;
    if Matches(flat, c) {
      assert forall k :: 0 <= k < |a| ==> c[k] == a[k];
      assert forall k :: 0 <= k < |b| ==> c[|a| + k] == b[k];
    }
  }

  /** Before the first write memory is the initial memory. */
  lemma {:induction false} ReadsLeaveMemory(flat: seq<Byte>, reqs: seq<Request>)
    requires |flat| == SPACE && forall k :: 0 <= k < |reqs| ==> reqs[k].cmd.Read?
    ensures After(flat, reqs) == flat
  {
    if reqs != [] {
      ReadsLeaveMemory(flat, reqs[..|reqs| - 1]);
    }
  }

  /** A faulting read hands back its buffer as it was. */
  ghost predicate BufferTrue(flat: seq<Byte>, q: Request)
    requires |flat| == SPACE
  {
    q.buf == ReadWrap(flat, q.addr, |q.buf|)
  }

  ghost predicate ReadTrue(flat: seq<Byte>, q: Request)
    requires |flat| == SPACE
  {
    q.cmd.Read? ==> Faultless(q) || BufferTrue(flat, q)
  }

  lemma {:induction false} LogSnoc(flat: seq<Byte>, reqs: seq<Request>, q: Request, cmd: Cmd)
    requires |flat| == SPACE
    ensures After(flat, reqs + [q]) == Served(After(flat, reqs), q).flat
    ensures q.cmd == cmd ==>
              Log(flat, reqs + [q], cmd) == Log(flat, reqs, cmd) + Cells(q.addr, Served(After(flat, reqs), q).buf)
    ensures q.cmd != cmd ==> Log(flat, reqs + [q], cmd) == Log(flat, reqs, cmd)
  {
    assert (reqs + [q])[..|reqs|] == reqs;
  }

  // ---- the bytes that writes leave behind ----

  /** The bytes the write requests send, all of them or those that do not fault. */
  function Writes(reqs: seq<Request>, faulty: bool): (cs: seq<Cell>) {
    if reqs == [] then []
    else
      var q := reqs[|reqs| - 1];
      Writes(reqs[..|reqs| - 1], faulty)
      + if q.cmd.Write? && (faulty || Faultless(q)) then Cells(q.addr, q.buf) else []
  }

  /** The byte last written at an address, if any. */
  function LastAt(cs: seq<Cell>, a: nat): Option<Byte> {
    if cs == [] then None
    else if Wrap(cs[|cs| - 1].addr) == a then Some(cs[|cs| - 1].val)
    else LastAt(cs[..|cs| - 1], a)
  }

  function OrElse(o: Option<Byte>, b: Byte): Byte {
    if o.Some? then o.value else b
  }

  lemma {:induction false} ApplyAt(flat: seq<Byte>, cs: seq<Cell>, a: nat)
    requires |flat| == SPACE && a < SPACE
    ensures Apply(flat, cs)[a] == OrElse(LastAt(cs, a), flat[a])
  {
    if cs != [] {
      ApplyAt(flat, cs[..|cs| - 1], a);
    }
  }

  lemma {:induction false} WritesSnoc(reqs: seq<Request>, q: Request, faulty: bool)
    ensures Writes(reqs + [q], faulty) ==
              if q.cmd.Write? && (faulty || Faultless(q)) then Writes(reqs, faulty) + Cells(q.addr, q.buf)
              else Writes(reqs, faulty)
  {
    assert (reqs + [q])[..|reqs|] == reqs;
    assert Writes(reqs, faulty) + [] == Writes(reqs, faulty);
  }

  /** Memory after a call holds its faultless writes. */
  lemma {:induction false} AfterIsWrites(flat: seq<Byte>, reqs: seq<Request>)
    requires |flat| == SPACE
    ensures After(flat, reqs) == Apply(flat, Writes(reqs, false))
  {
    if reqs != [] {
      var before, q := reqs[..|reqs| - 1], reqs[|reqs| - 1];
      assert reqs == before + [q];
      LogSnoc(flat, before, q, Write);
      WritesSnoc(before, q, false);
      AfterIsWrites(flat, before);
      if q.cmd.Write? && Faultless(q) {
        ApplyAppend(flat, Writes(before, false), Cells(q.addr, q.buf));
        ApplyCells(After(flat, before), q.addr, q.buf);
      }
    }
  }

  /** The log of a call holds all its writes, whatever the memory. */
  lemma {:induction false} LogIsWrites(flat: seq<Byte>, reqs: seq<Request>)
    requires |flat| == SPACE
    ensures Log(flat, reqs, Write) == Writes(reqs, true)
  {
    if reqs != [] {
      var before, q := reqs[..|reqs| - 1], reqs[|reqs| - 1];
      assert reqs == before + [q];
      LogSnoc(flat, before, q, Write);
      WritesSnoc(before, q, true);
      LogIsWrites(flat, before);
    }
  }

  // ---- replaying the checks ----

  /** The requests before left the byte k bytes behind addr unwritten, or wrote
      what was there. */
  predicate Undisturbed(flat: seq<Byte>, before: seq<Request>, addr: nat, k: nat)
    requires |flat| == SPACE
  {
    var a := Wrap(addr + k);
    OrElse(LastAt(Writes(before, false), a), flat[a]) == flat[a]
  }

  ghost predicate AllUndisturbed(flat: seq<Byte>, before: seq<Request>, q: Request)
    requires |flat| == SPACE
  {
    forall k :: 0 <= k < |q.buf| ==> Undisturbed(flat, before, q.addr, k)
  }

  /** A request behind others reads what the initial memory holds. */
  ghost predicate ReadsInitial(flat: seq<Byte>, before: seq<Request>, q: Request)
    requires |flat| == SPACE
  {
    q.cmd.Read? ==> if Faultless(q) then AllUndisturbed(flat, before, q) else BufferTrue(flat, q)
  }

  lemma {:induction false} ReadsInitialExact(flat: seq<Byte>, before: seq<Request>, q: Request)
    requires |flat| == SPACE && q.cmd.Read?
    ensures Matches(flat, Cells(q.addr, Served(After(flat, before), q).buf)) <==> ReadsInitial(flat, before, q)
  {
    var after := After(flat, before);
    CellsMatch(flat, q.addr, Served(after, q).buf);
    if Faultless(q) {
      assert Served(after, q).buf == ReadWrap(after, q.addr, |q.buf|);
      UndisturbedExact(flat, before, q);
    }
  }

  lemma {:induction false} UndisturbedExact(flat: seq<Byte>, before: seq<Request>, q: Request)
    requires |flat| == SPACE
    ensures ReadWrap(After(flat, before), q.addr, |q.buf|) == ReadWrap(flat, q.addr, |q.buf|) <==>
              AllUndisturbed(flat, before, q)
  {
    var x, y := ReadWrap(After(flat, before), q.addr, |q.buf|), ReadWrap(flat, q.addr, |q.buf|);
    forall k | 0 <= k < |q.buf|
      ensures x[k] == y[k] <==> Undisturbed(flat, before, q.addr, k)
    {
      UndisturbedAt(flat, before, q.addr, k);
    }
    SameBytes(x, y);
  }

  lemma {:induction false} UndisturbedAt(flat: seq<Byte>, before: seq<Request>, addr: nat, k: nat)
    requires |flat| == SPACE
    ensures After(flat, before)[Wrap(addr + k)] == flat[Wrap(addr + k)] <==> Undisturbed(flat, before, addr, k)
  {
    AfterIsWrites(flat, before);
    ApplyAt(flat, Writes(before, false), Wrap(addr + k));
  }

  lemma SameBytes(f: seq<Byte>, g: seq<Byte>)
    requires |f| == |g|
    ensures f == g <==> forall a :: 0 <= a < |f| ==> f[a] == g[a]
  {
  }

  lemma CellsMatch(flat: seq<Byte>, addr: nat, buf: seq<Byte>)
    requires |flat| == SPACE
    ensures Matches(flat, Cells(addr, buf)) <==> buf == ReadWrap(flat, addr, |buf|)
  {
    var cs := Cells(addr, buf);
    if Matches(flat, cs) {
      assert forall k :: 0 <= k < |buf| ==> buf[k] == cs[k].val == flat[Wrap(addr + k)];
    }
  }

  ghost predicate AllReadInitial(flat: seq<Byte>, reqs: seq<Request>)
    requires |flat| == SPACE
  {
    forall k :: 0 <= k < |reqs| ==> ReadsInitial(flat, reqs[..k], reqs[k])
  }

  lemma AllReadInitialSnoc(flat: seq<Byte>, reqs: seq<Request>, q: Request)
    requires |flat| == SPACE
    ensures AllReadInitial(flat, reqs + [q]) <==> AllReadInitial(flat, reqs) && ReadsInitial(flat, reqs, q)
  {
    var all := reqs + [q];
    assert all[..|reqs|] == reqs && all[|reqs|] == q;
    forall k | 0 <= k < |reqs|
      ensures ReadsInitial(flat, all[..k], all[k]) == ReadsInitial(flat, reqs[..k], reqs[k])
    {
      assert all[..k] == reqs[..k];
    }
  }

  /** The input checks of a replay compare all recorded reads with the initial
      memory: they pass exactly when every read saw it, guarded or not. */
  lemma {:induction false} ChecksExact(flat: seq<Byte>, reqs: seq<Request>)
    requires |flat| == SPACE
    ensures Matches(flat, Log(flat, reqs, Read)) <==> AllReadInitial(flat, reqs)
  {
    if reqs != [] {
      var before, q := reqs[..|reqs| - 1], reqs[|reqs| - 1];
      assert reqs == before + [q];
      LogSnoc(flat, before, q, Read);
      ChecksExact(flat, before);
      AllReadInitialSnoc(flat, before, q);
      if q.cmd.Read? {
        ReadsInitialExact(flat, before, q);
        MatchesAppend(flat, Log(flat, before, Read), Cells(q.addr, Served(After(flat, before), q).buf));
      }
    }
  }

  lemma {:induction false} NoWrites(reqs: seq<Request>)
    requires forall k :: 0 <= k < |reqs| ==> reqs[k].cmd.Read?
    ensures Writes(reqs, false) == []
  {
    if reqs != [] {
      NoWrites(reqs[..|reqs| - 1]);
    }
  }

  lemma GuardedReads(flat: seq<Byte>, before: seq<Request>, q: Request)
    requires |flat| == SPACE && (q.cmd.Read? ==> forall k :: 0 <= k < |before| ==> before[k].cmd.Read?)
    ensures ReadsInitial(flat, before, q) == ReadTrue(flat, q)
  {
    if q.cmd.Read? {
      NoWrites(before);
    }
  }

  /** Behind the guard that is so exactly when every read either did not fault or
      was handed a buffer that already held the right bytes. */
  lemma {:induction false} ReplayChecksExact(flat: seq<Byte>, reqs: seq<Request>)
    requires |flat| == SPACE && Guarded(reqs)
    ensures Matches(flat, Log(flat, reqs, Read)) <==> forall k :: 0 <= k < |reqs| ==> ReadTrue(flat, reqs[k])
  {
    ChecksExact(flat, reqs);
    forall k | 0 <= k < |reqs|
      ensures ReadsInitial(flat, reqs[..k], reqs[k]) == ReadTrue(flat, reqs[k])
    {
      GuardedReads(flat, reqs[..k], reqs[k]);
    }
  }

  lemma {:induction false} WritesReplay(flat: seq<Byte>, reqs: seq<Request>)
    requires |flat| == SPACE && forall k :: 0 <= k < |reqs| && reqs[k].cmd.Write? ==> Faultless(reqs[k])
    ensures Apply(flat, Log(flat, reqs, Write)) == After(flat, reqs)
  {
    if reqs != [] {
      var before, q := reqs[..|reqs| - 1], reqs[|reqs| - 1];
      assert reqs == before + [q];
      LogSnoc(flat, before, q, Write);
      WritesReplay(flat, before);
      if q.cmd.Write? {
        ApplyAppend(flat, Log(flat, before, Write), Cells(q.addr, q.buf));
        ApplyCells(After(flat, before), q.addr, q.buf);
      }
    }
  }

  /** Record and replay: if no access of a guarded call faults, its transaction
      replayed from the same memory passes all checks and gives the same memory. */
  lemma {:induction false} ReplayFaithful(flat: seq<Byte>, reqs: seq<Request>)
    requires |flat| == SPACE && Guarded(reqs) && forall k :: 0 <= k < |reqs| ==> Faultless(reqs[k])
    ensures Matches(flat, Log(flat, reqs, Read))
    ensures Apply(flat, Log(flat, reqs, Write)) == After(flat, reqs)
  {
    ReplayChecksExact(flat, reqs);
    WritesReplay(flat, reqs);
  }

  /** Without the guard: a fault-free call passes the checks of its replay exactly
      when each byte it reads is unwritten by then or was written as it was. */
  lemma {:induction false} GuardNeeded(flat: seq<Byte>, reqs: seq<Request>)
    requires |flat| == SPACE && forall k :: 0 <= k < |reqs| ==> Faultless(reqs[k])
    ensures Matches(flat, Log(flat, reqs, Read)) <==>
              forall k :: 0 <= k < |reqs| && reqs[k].cmd.Read? ==> AllUndisturbed(flat, reqs[..k], reqs[k])
  {
    ChecksExact(flat, reqs);
    forall k | 0 <= k < |reqs|
      ensures ReadsInitial(flat, reqs[..k], reqs[k]) <==>
                (reqs[k].cmd.Read? ==> AllUndisturbed(flat, reqs[..k], reqs[k]))
    {
    }
  }

  /** One byte is written or read without a fault. */
  lemma OneByte(flat: seq<Byte>, addr: nat, v: Byte)
    requires |flat| == SPACE && addr < SPACE
    ensures Served(flat, Request(Write, addr, [v])) == Copied(NoFault, Put(flat, addr, v), [v])
    ensures Served(flat, Request(Read, addr, [v])) == Copied(NoFault, flat, [flat[addr]])
    ensures Cells(addr, [v]) == [Cell(addr, v)]
  {
    assert WriteWrap(flat, addr, [v][..0]) == flat;
    assert ReadWrap(flat, addr, 1) == [flat[addr]];
  }

  /** Every write is logged, but only faultless ones change memory: a replay from
      a given memory restores what the call left exactly when, at each address,
      the last logged byte (or else the byte there before) is the last one that
      was really written (or else the byte there before). */
  lemma {:induction false} FaultingWrites(flat: seq<Byte>, reqs: seq<Request>)
    requires |flat| == SPACE
    ensures Apply(flat, Log(flat, reqs, Write)) == After(flat, reqs) <==>
              forall a :: 0 <= a < SPACE ==>
                OrElse(LastAt(Writes(reqs, true), a), flat[a]) == OrElse(LastAt(Writes(reqs, false), a), flat[a])
  {
    LogIsWrites(flat, reqs);
    AfterIsWrites(flat, reqs);
    var f, g := Apply(flat, Writes(reqs, true)), Apply(flat, Writes(reqs, false));
    forall a: nat | a < SPACE
      ensures f[a] == OrElse(LastAt(Writes(reqs, true), a), flat[a])
      ensures g[a] == OrElse(LastAt(Writes(reqs, false), a), flat[a])
    {
      ApplyAt(flat, Writes(reqs, true), a);
      ApplyAt(flat, Writes(reqs, false), a);
    }
    SameBytes(f, g);
  }

  ghost predicate Restores(flat: seq<Byte>, reqs: seq<Request>)
    requires |flat| == SPACE
  {
    Apply(flat, Log(flat, reqs, Write)) == After(flat, reqs)
  }

  /** So the replay restores every memory exactly when at each address the last
      logged byte and the last byte really written are the same, or both missing. */
  lemma {:induction false} FaultingWritesExact(reqs: seq<Request>)
    ensures (forall flat: seq<Byte> :: |flat| == SPACE ==> Restores(flat, reqs)) <==>
              forall a: nat :: a < SPACE ==> LastAt(Writes(reqs, true), a) == LastAt(Writes(reqs, false), a)
  {
    if forall a: nat :: a < SPACE ==> LastAt(Writes(reqs, true), a) == LastAt(Writes(reqs, false), a) {
      forall flat: seq<Byte> | |flat| == SPACE
        ensures Restores(flat, reqs)
      {
        FaultingWrites(flat, reqs);
      }
    } else {
      var a: nat :| a < SPACE && LastAt(Writes(reqs, true), a) != LastAt(Writes(reqs, false), a);
      var flat := Unlike(LastAt(Writes(reqs, true), a), LastAt(Writes(reqs, false), a));
      FaultingWrites(flat, reqs);
    }
  }

  /** A memory of one byte value that tells two different outcomes apart. */
  function Unlike(x: Option<Byte>, y: Option<Byte>): (flat: seq<Byte>)
    ensures |flat| == SPACE
    ensures x != y ==> forall a :: 0 <= a < SPACE ==> OrElse(x, flat[a]) != OrElse(y, flat[a])
  {
    var v: Byte := if x == Some(0) || y == Some(0) then 1 else 0;
    seq(SPACE, _ => v)
  }

  /** Such a call exists: it writes three bytes, which is not a power of two. */
  lemma {:induction false} FaultingWriteBreaks(flat: seq<Byte>, v: Byte)
    requires |flat| == SPACE && v != flat[2]
    ensures var reqs := [Request(Write, 0, [flat[0], flat[1], v])];
            Guarded(reqs) && After(flat, reqs) == flat && !Restores(flat, reqs)
  {
    var buf := [flat[0], flat[1], v];
    var reqs := [Request(Write, 0, buf)];
    assert !IsPow2(3);
    assert reqs[..0] == [];
    assert Log(flat, reqs, Write) == Cells(0, buf);
    ApplyCells(flat, 0, buf);
  }

  /** The accesses of a replay: one byte at a time, all reads first. */
  function ReplayRequests(cs: seq<Cell>, cmd: Cmd): (reqs: seq<Request>)
    ensures |reqs| == |cs|
    ensures forall k :: 0 <= k < |cs| ==> reqs[k] == Request(cmd, cs[k].addr, [if cmd.Read? then 0 else cs[k].val])
  {
    seq(|cs|, k requires 0 <= k < |cs| => Request(cmd, cs[k].addr, [if cmd.Read? then 0 else cs[k].val]))
  }

  lemma Snoc<T>(s: seq<T>)
    requires s != []
    ensures s == s[..|s| - 1] + [s[|s| - 1]]
  {
  }

  lemma ReplaySnoc(cs: seq<Cell>, c: Cell, cmd: Cmd)
    ensures ReplayRequests(cs + [c], cmd)
         == ReplayRequests(cs, cmd) + [Request(cmd, c.addr, [if cmd.Read? then 0 else c.val])]
  {
  }

  /** A replay that is itself recorded, from the same memory, gives the same
      logs: a trace of a trace says what the trace says. */
  lemma {:induction false} ReRecord(flat: seq<Byte>, ins: seq<Cell>, outs: seq<Cell>)
    requires |flat| == SPACE && Matches(flat, ins) && forall k :: 0 <= k < |outs| ==> outs[k].addr < SPACE
    ensures var reqs := ReplayRequests(ins, Read) + ReplayRequests(outs, Write);
            Guarded(reqs) && Log(flat, reqs, Read) == ins && Log(flat, reqs, Write) == outs
  {
    var rs, ws := ReplayRequests(ins, Read), ReplayRequests(outs, Write);
    if outs == [] {
      ReRecordReads(flat, ins);
      assert rs + ws == rs;
    } else {
      var front, c := outs[..|outs| - 1], outs[|outs| - 1];
      ReRecord(flat, ins, front);
      Snoc(outs);
      ReplaySnoc(front, c, Write);
      var reqs, q := rs + ReplayRequests(front, Write), Request(Write, c.addr, [c.val]);
      assert rs + ws == reqs + [q];
      LogSnoc(flat, reqs, q, Read);
      LogSnoc(flat, reqs, q, Write);
      OneByte(After(flat, reqs), c.addr, c.val);
    }
  }

  lemma {:induction false} ReRecordReads(flat: seq<Byte>, ins: seq<Cell>)
    requires |flat| == SPACE && Matches(flat, ins)
    ensures Log(flat, ReplayRequests(ins, Read), Read) == ins && Log(flat, ReplayRequests(ins, Read), Write) == []
  {
    if ins != [] {
      var front, c := ins[..|ins| - 1], ins[|ins| - 1];
      ReRecordReads(flat, front);
      Snoc(ins);
      ReplaySnoc(front, c, Read);
      var reqs, q := ReplayRequests(front, Read), Request(Read, c.addr, [0]);
      LogSnoc(flat, reqs, q, Read);
      LogSnoc(flat, reqs, q, Write);
      ReadsLeaveMemory(flat, reqs);
      OneByte(flat, c.addr, 0);
      OneByte(flat, c.addr, c.val);
    }
  }

  // ---- recording ----

  /** Filling a blob that was just opened. */
  lemma NewBlob(list: seq<Blob>, a: nat, p: seq<Byte>)
    ensures (list + [Blob(a, [])])[..|list|] + [Blob(a, [] + p)] == list + [Blob(a, p)]
  {
    assert [] + p == p;
  }

  /** struct mem_rec_t and the list it appends to. */
  class Recorder {
    var list: seq<Blob>
    var open: bool          // exo != NULL
    var addr: nat
    var size: nat
    var maxsize: nat

    ghost predicate Valid()
      reads this
    {
      && (open <==> list != [])
      && (open ==> list[|list| - 1].addr == addr && |list[|list| - 1].data| == size && size < maxsize)
    }

    constructor ()
      ensures Valid() && list == []
    {
      list, open, addr, size, maxsize := [], false, 0, 0, 0;
    }

    /** The tail of a blob never grows beyond its storage: size stays below maxsize. */
    method Record(a: nat, p: seq<Byte>)
      requires Valid() && a < SPACE
      modifies this
      ensures Valid() && list == Recorded(old(list), old(maxsize), a, p)
      ensures |list| == |old(list)| <==>
                old(open) && Wrap(old(addr) + old(size)) == a && old(size) + |p| < old(maxsize)
      ensures maxsize == if |list| == |old(list)| then old(maxsize) else |p| + 256
      ensures Flatten(list) == Flatten(old(list)) + Cells(a, p)
    {
      RecordedFlattens(list, maxsize, a, p);
      if open && Wrap(addr + size) == a && size + |p| < maxsize {
        Append(p);
      } else {
        NewBlob(list, a, p);
        OpenBlob(a, |p|);
        Append(p);
      }
    }

    /** Copy the bytes into the open blob. */
    method Append(p: seq<Byte>)
      requires list != []
      modifies this`list, this`size
      ensures size == old(size) + |p|
      ensures var n := |old(list)| - 1;
              list == old(list)[..n] + [Blob(old(list)[n].addr, old(list)[n].data + p)]
    {
      Fill(p);
      size := size + |p|;
    }

    method OpenBlob(a: nat, n: nat)
      modifies this
      ensures open && addr == a && size == 0 && maxsize == n + 256 && list == old(list) + [Blob(a, [])]
    {
      list := list + [Blob(a, [])];
      open, addr, size, maxsize := true, a, 0, n + 256;
    }

    /** Copy the bytes behind the ones already in the last blob. */
    method Fill(p: seq<Byte>)
      requires list != []
      modifies this`list
      ensures var n := |old(list)| - 1;
              list == old(list)[..n] + [Blob(old(list)[n].addr, old(list)[n].data + p)]
    {
      ghost var base, last := list[..|list| - 1], list[|list| - 1];
      assert last.data + p[..0] == last.data;
      for i := 0 to |p|
        invariant list == base + [Blob(last.addr, last.data + p[..i])]
      {
        var b := list[|list| - 1];
        list := list[|list| - 1 := Blob(b.addr, b.data + [p[i]])];
        assert last.data + p[..i + 1] == last.data + p[..i] + [p[i]];
      }
      assert p[..|p|] == p;
    }
  }

  /** my_mem_fn around a memory, with the two lists and the guard flag. */
  class Tracer {
    const mem: Mem
    const input: Recorder
    const output: Recorder
    var seenWrite: bool

    ghost predicate Valid()
      reads this, mem, input, output
    {
      mem.Valid() && input.Valid() && output.Valid() && input != output
    }

    constructor (mem: Mem)
      requires mem.Valid()
      ensures Valid() && this.mem == mem && fresh(input) && fresh(output)
      ensures input.list == [] && output.list == [] && !seenWrite
    {
      this.mem := mem;
      input := new Recorder();
      output := new Recorder();
      seenWrite := false;
    }

    /** A read is performed first, so that its bytes can be recorded. */
    method TraceRead(addr: nat, p: seq<Byte>) returns (fault: Fault, buf: seq<Byte>)
      requires Valid() && addr < SPACE
      modifies mem, input
      ensures Valid() && Copied(fault, mem.flat, buf) == AccessSpec(old(mem.flat), Read, addr, p)
      ensures Flatten(input.list) == Flatten(old(input.list)) + Cells(addr, buf)
    {
      fault, buf := mem.Access(Read, addr, p);
      input.Record(addr, buf);
    }

    /** A write is recorded before it is performed. */
    method TraceWrite(addr: nat, p: seq<Byte>) returns (fault: Fault, buf: seq<Byte>)
      requires Valid() && addr < SPACE
      modifies mem, output
      ensures Valid() && Copied(fault, mem.flat, buf) == AccessSpec(old(mem.flat), Write, addr, p)
      ensures Flatten(output.list) == Flatten(old(output.list)) + Cells(addr, buf)
    {
      output.Record(addr, p);
      fault, buf := mem.Access(Write, addr, p);
    }

    /** A read after a write is fatal; otherwise the access is performed and its
        bytes are appended to the list of its direction. */
    method MemFn(q: Request) returns (fatal: bool, fault: Fault, buf: seq<Byte>)
      requires Valid() && q.addr < SPACE
      modifies this, mem, input, output
      ensures Valid() && (fatal <==> q.cmd.Read? && old(seenWrite))
      ensures !fatal ==> seenWrite == (old(seenWrite) || q.cmd.Write?)
      ensures !fatal ==> Copied(fault, mem.flat, buf) == Served(old(mem.flat), q)
      ensures !fatal && q.cmd.Read? ==>
                Flatten(input.list) == Flatten(old(input.list)) + Cells(q.addr, buf) && output.list == old(output.list)
      ensures !fatal && q.cmd.Write? ==>
                Flatten(output.list) == Flatten(old(output.list)) + Cells(q.addr, buf) && input.list == old(input.list)
    {
      fatal, fault, buf := q.cmd == Read && seenWrite, NoFault, q.buf;
      if fatal {
        return;
      }
      if q.cmd == Read {
        fault, buf := TraceRead(q.addr, q.buf);
      } else {
        seenWrite := true;
        fault, buf := TraceWrite(q.addr, q.buf);
      }
    }

    /** One more access of a call that began with memory f. */
    method PerformOne(q: Request, ghost f: seq<Byte>, ghost before: seq<Request>) returns (fatal: bool)
      requires Valid() && q.addr < SPACE && |f| == SPACE
      requires Traced(f, before, mem.flat, Flatten(input.list), Flatten(output.list), seenWrite)
      modifies this, mem, input, output
      ensures Valid() && (fatal <==> !Guarded(before + [q]))
      ensures !fatal ==>
                Traced(f, before + [q], mem.flat, Flatten(input.list), Flatten(output.list), seenWrite)
    {
      ghost var g, ins, outs, wrote := mem.flat, Flatten(input.list), Flatten(output.list), seenWrite;
      var fault, buf;
      fatal, fault, buf := MemFn(q);
      TracedStep(f, before, q, g, ins, outs, wrote);
    }

    /** The accesses of one system call, up to a fatal one. */
    method Perform(reqs: seq<Request>) returns (fatal: bool)
      requires Valid() && !seenWrite && input.list == [] && output.list == [] && ValidRequests(reqs)
      modifies this, mem, input, output
      ensures Valid() && (fatal <==> !Guarded(reqs))
      ensures !fatal ==> mem.flat == After(old(mem.flat), reqs)
      ensures !fatal ==> Flatten(input.list) == Log(old(mem.flat), reqs, Read)
      ensures !fatal ==> Flatten(output.list) == Log(old(mem.flat), reqs, Write)
    {
      ghost var f := mem.flat;
      var i := 0;
      while i < |reqs|
        invariant 0 <= i <= |reqs| && Valid()
        invariant Traced(f, reqs[..i], mem.flat, Flatten(input.list), Flatten(output.list), seenWrite)
      {
        NextPrefix(reqs, i);
        fatal := PerformOne(reqs[i], f, reqs[..i]);
        if fatal {
          UnguardedPrefix(reqs, i + 1);
          return;
        }
        i := i + 1;
      }
      assert reqs[..i] == reqs;
      fatal := false;
    }
  }

  lemma NextPrefix(reqs: seq<Request>, i: nat)
    requires i < |reqs| && ValidRequests(reqs)
    ensures reqs[..i + 1] == reqs[..i] + [reqs[i]] && reqs[i].addr < SPACE
  {
    assert reqs[i] in reqs;
  }

  /** The tracer state after some requests. */
  ghost predicate Traced(f: seq<Byte>, reqs: seq<Request>, flat: seq<Byte>, ins: seq<Cell>, outs: seq<Cell>,
                         wrote: bool)
    requires |f| == SPACE
  {
    && flat == After(f, reqs) && ins == Log(f, reqs, Read) && outs == Log(f, reqs, Write)
    && Guarded(reqs) && (wrote <==> Wrote(reqs))
  }

  lemma TracedStep(f: seq<Byte>, reqs: seq<Request>, q: Request, flat: seq<Byte>, ins: seq<Cell>, outs: seq<Cell>,
                   wrote: bool)
    requires |f| == SPACE && Traced(f, reqs, flat, ins, outs, wrote)
    ensures q.cmd.Read? && wrote ==> !Guarded(reqs + [q])
    ensures q.cmd.Read? && !wrote ==>
              Traced(f, reqs + [q], Served(flat, q).flat, ins + Cells(q.addr, Served(flat, q).buf), outs, false)
    ensures q.cmd.Write? ==>
              Traced(f, reqs + [q], Served(flat, q).flat, ins, outs + Cells(q.addr, Served(flat, q).buf), true)
  {
    LogSnoc(f, reqs, q, Read);
    LogSnoc(f, reqs, q, Write);
    GuardedSnoc(reqs, q);
  }

  // ---- transactions ----

  datatype Transaction = Transaction(icnt: nat, pc: nat, inRegs: seq<int>, inMem: seq<Blob>,
                                     brk: nat, outRegs: seq<int>, outMem: seq<Blob>)

  /** What a system call does: its accesses, then new registers and break point. */
  datatype Syscall = Syscall(reqs: seq<Request>, gpr: seq<int>, brk: nat)

  class Machine {
    const mem: Mem
    var pc: nat
    var gpr: seq<int>
    var brk: nat

    ghost predicate Valid()
      reads this, mem
    {
      mem.Valid() && |gpr| == 32
    }

    constructor (mem: Mem, pc: nat, gpr: seq<int>, brk: nat)
      requires mem.Valid() && |gpr| == 32
      ensures Valid() && this.mem == mem && this.pc == pc && this.gpr == gpr && this.brk == brk
    {
      this.mem, this.pc, this.gpr, this.brk := mem, pc, gpr, brk;
    }

    /** eio_write_trace: perform the call under the recording accessor. */
    method WriteTrace(icnt: nat, call: Syscall) returns (fatal: bool, t: Transaction)
      requires Valid() && ValidRequests(call.reqs) && |call.gpr| == 32
      modifies this, mem
      ensures Valid() && (fatal <==> !Guarded(call.reqs))
      ensures !fatal ==> mem.flat == After(old(mem.flat), call.reqs)
      ensures !fatal ==> gpr == call.gpr && brk == call.brk && pc == old(pc)
      ensures !fatal ==> t.icnt == icnt && t.pc == pc && t.brk == brk
      ensures !fatal ==> t.inRegs == old(gpr[2..8]) && t.outRegs == gpr[2..8]
      ensures !fatal ==> Flatten(t.inMem) == Log(old(mem.flat), call.reqs, Read)
      ensures !fatal ==> Flatten(t.outMem) == Log(old(mem.flat), call.reqs, Write)
    {
      ghost var f := mem.flat;
      var inRegs := ReadRegs();
      var tracer := new Tracer(mem);
      t := Transaction(icnt, pc, [], [], 0, [], []);
      fatal := tracer.Perform(call.reqs);
      if fatal {
        return;
      }
      gpr, brk := call.gpr, call.brk;
      var outRegs := ReadRegs();
      t := Transaction(icnt, pc, inRegs, tracer.input.list, brk, outRegs, tracer.output.list);
    }

    method ReadRegs() returns (rs: seq<int>)
      requires Valid()
      ensures rs == gpr[2..8]
    {
      rs := [];
      for i := 2 to 8
        invariant rs == gpr[2..i]
      {
        rs := rs + [gpr[i]];
      }
    }

    /** eio_read_trace: check the inputs of a transaction, then install its outputs. */
    method ReadTrace(icnt: nat, t: Transaction) returns (ok: bool)
      requires Valid()
      modifies this, mem
      ensures Valid()
      ensures ok <==> && icnt == t.icnt && old(pc) == t.pc && old(gpr[2..8]) == t.inRegs
                      && Matches(old(mem.flat), Flatten(t.inMem)) && |t.outRegs| == 6
      ensures ok ==> pc == old(pc) && gpr == old(gpr)[..2] + t.outRegs + old(gpr)[8..] && brk == t.brk
      ensures ok ==> mem.flat == Apply(old(mem.flat), Flatten(t.outMem))
    {
      ghost var f := mem.flat;
      ok := false;
      if icnt != t.icnt || pc != t.pc {
        return;
      }
      var regs := ReadRegs();
      if regs != t.inRegs {
        return;
      }
      var checked := CheckInputs(t.inMem);
      if !checked {
        return;
      }
      brk := t.brk;
      if |t.outRegs| != 6 {
        return;
      }
      WriteRegs(t.outRegs);
      WriteOutputs(t.outMem);
      ok := true;
    }

    method WriteRegs(rs: seq<int>)
      requires Valid() && |rs| == 6
      modifies this`gpr
      ensures Valid() && gpr == old(gpr)[..2] + rs + old(gpr)[8..]
    {
      ghost var g := gpr;
      for i := 2 to 8
        invariant |gpr| == 32 && gpr == g[..2] + rs[..i - 2] + g[i..]
      {
        gpr := gpr[i := rs[i - 2]];
      }
    }

    /** Every byte of every input blob is read one by one and compared. */
    method CheckInputs(list: seq<Blob>) returns (ok: bool)
      requires Valid()
      modifies mem
      ensures Valid() && mem.flat == old(mem.flat) && (ok <==> Matches(mem.flat, Flatten(list)))
    {
      ghost var f := mem.flat;
      ok := true;
      var j := 0;
      while j < |list|
        invariant 0 <= j <= |list| && Valid() && mem.flat == f && Matches(f, Flatten(list[..j]))
      {
        var checked := CheckBlob(list[j]);
        assert list[..j + 1][..j] == list[..j];
        MatchesAppend(f, Flatten(list[..j]), Cells(list[j].addr, list[j].data));
        if !checked {
          FlattenPrefix(list, j + 1);
          MatchesPrefix(f, list, j + 1);
          return false;
        }
        j := j + 1;
      }
      assert list[..j] == list;
    }

    method CheckBlob(b: Blob) returns (ok: bool)
      requires Valid()
      modifies mem
      ensures Valid() && mem.flat == old(mem.flat) && (ok <==> Matches(mem.flat, Cells(b.addr, b.data)))
    {
      ghost var f := mem.flat;
      ghost var cs := Cells(b.addr, b.data);
      var loc, i := Wrap(b.addr), 0;
      while i < |b.data|
        invariant 0 <= i <= |b.data| && loc == Wrap(b.addr + i) && Valid() && mem.flat == f
        invariant forall k :: 0 <= k < i ==> f[cs[k].addr] == cs[k].val
      {
        var val := GetByte(loc);
        CellAt(b.addr, b.data, i);
        if val != b.data[i] {
          return false;
        }
        loc, i := Wrap(loc + 1), i + 1;
      }
      ok := true;
    }

    /** One byte read through the accessor. */
    method GetByte(loc: nat) returns (val: Byte)
      requires Valid() && loc < SPACE
      modifies mem
      ensures Valid() && mem.flat == old(mem.flat) && val == mem.flat[loc]
    {
      OneByte(mem.flat, loc, 0);
      var fault, buf := mem.Access(Read, loc, [0]);
      val := buf[0];
    }

    /** One byte written through the accessor. */
    method PutByte(loc: nat, val: Byte)
      requires Valid() && loc < SPACE
      modifies mem
      ensures Valid() && mem.flat == Put(old(mem.flat), loc, val)
    {
      OneByte(mem.flat, loc, val);
      var fault, buf := mem.Access(Write, loc, [val]);
    }

    method WriteOutputs(list: seq<Blob>)
      requires Valid()
      modifies mem
      ensures Valid() && mem.flat == Apply(old(mem.flat), Flatten(list))
    {
      ghost var f := mem.flat;
      var j := 0;
      while j < |list|
        invariant 0 <= j <= |list| && Valid() && mem.flat == Apply(f, Flatten(list[..j]))
      {
        WriteBlob(list[j]);
        assert list[..j + 1] == list[..j] + [list[j]];
        FlattenSnoc(list[..j], list[j]);
        ApplyAppend(f, Flatten(list[..j]), Cells(list[j].addr, list[j].data));
        j := j + 1;
      }
      assert list[..j] == list;
    }

    method WriteBlob(b: Blob)
      requires Valid()
      modifies mem
      ensures Valid() && mem.flat == Apply(old(mem.flat), Cells(b.addr, b.data))
    {
      ghost var f := mem.flat;
      var loc, i := Wrap(b.addr), 0;
      while i < |b.data|
        invariant 0 <= i <= |b.data| && loc == Wrap(b.addr + i) && Valid()
        invariant mem.flat == WriteWrap(f, b.addr, b.data[..i])
      {
        PutByte(loc, b.data[i]);
        WriteOne(f, b.addr, b.data, i);
        loc, i := Wrap(loc + 1), i + 1;
      }
      assert b.data[..i] == b.data;
      ApplyCells(f, b.addr, b.data);
    }
  }

  lemma CellAt(addr: nat, data: seq<Byte>, i: nat)
    requires i < |data|
    ensures Cells(addr, data)[i] == Cell(Wrap(addr + i), data[i])
    ensures Wrap(Wrap(addr + i) + 1) == Wrap(addr + (i + 1))
  {
    WrapAdd(addr + i, 1);
  }

  lemma {:induction false} FlattenPrefix(list: seq<Blob>, j: nat)
    requires j <= |list|
    ensures Flatten(list[..j]) <= Flatten(list)
  {
    if j == |list| {
      assert list[..j] == list;
    } else {
      assert list[..|list| - 1][..j] == list[..j];
      FlattenPrefix(list[..|list| - 1], j);
    }
  }

  lemma {:induction false} MatchesPrefix(flat: seq<Byte>, list: seq<Blob>, j: nat)
    requires |flat| == SPACE && j <= |list| && Flatten(list[..j]) <= Flatten(list)
    ensures Matches(flat, Flatten(list)) ==> Matches(flat, Flatten(list[..j]))
  {
    var a, b := Flatten(list[..j]), Flatten(list);
    if Matches(flat, b) {
      forall k | 0 <= k < |a|
        ensures a[k].addr < SPACE && flat[a[k].addr] == a[k].val
      {
        assert a[k] == b[k];
      }
    }
  }

  /** A fault-free guarded call recorded on one machine and replayed on another in
      the same state: the replay succeeds and ends in the same state, as long as
      the call changes no other registers than 2 to 7. */
  method RecordAndReplay(m: Machine, r: Machine, icnt: nat, call: Syscall) returns (ok: bool)
    requires m.Valid() && r.Valid() && m != r && m.mem != r.mem
    requires m.pc == r.pc && m.gpr == r.gpr && m.mem.flat == r.mem.flat
    requires ValidRequests(call.reqs) && |call.gpr| == 32
    requires forall k :: 0 <= k < |call.reqs| ==> Faultless(call.reqs[k])
    requires call.gpr[..2] == m.gpr[..2] && call.gpr[8..] == m.gpr[8..]
    modifies m, m.mem, r, r.mem
    ensures m.Valid() && r.Valid() && (ok <==> Guarded(call.reqs))
    ensures ok ==> r.pc == m.pc && r.gpr == m.gpr && r.brk == m.brk && r.mem.flat == m.mem.flat
  {
    ghost var f := m.mem.flat;
    ReplayRegs(m.gpr, call.gpr);
    if Guarded(call.reqs) {
      ReplayFaithful(f, call.reqs);
    }
    var fatal, t := m.WriteTrace(icnt, call);
    if fatal {
      return false;
    }
    ok := r.ReadTrace(icnt, t);
  }

  lemma ReplayRegs(before: seq<int>, after: seq<int>)
    requires |before| == |after| == 32 && after[..2] == before[..2] && after[8..] == before[8..]
    ensures before[..2] + after[2..8] + before[8..] == after && |after[2..8]| == 6
  {
    assert after == after[..2] + after[2..8] + after[8..];
  }
}
