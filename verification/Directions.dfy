/** Branch direction prediction (lab3/bpred.c): two-bit counters indexed by
    branch address, by recent history, or by both, and the choice between them. */
module Directions {
  import opened Pow2
  import opened FlatMemory
  import opened Options

  datatype Kind = Comb | TwoLevel | TwoBit | AlwaysTaken | NeverTaken {
    predicate HasTwoLev() { this == Comb || this == TwoLevel }
    predicate HasBimod() { this == Comb || this == TwoBit }
    predicate HasMeta() { this == Comb }
  }

  // ---- indices ----

  /** The exclusive or of two numbers, cut to the bits below `size`, a power of two. */
  function XorBelow(a: nat, b: nat, size: nat): (r: nat)
    requires IsPow2(size)
    ensures r < size
  {
    if size == 1 then 0 else 2 * XorBelow(a / 2, b / 2, size / 2) + (a + b) % 2
  }

  /** With one operand fixed, the exclusive or tells the others apart. */
  lemma {:induction false} XorInjective(a: nat, a': nat, b: nat, size: nat)
    requires IsPow2(size) && a < size && a' < size && XorBelow(a, b, size) == XorBelow(a', b, size)
    ensures a == a'
  {
    if size > 1 {
      SameParts(XorBelow(a / 2, b / 2, size / 2), (a + b) % 2, XorBelow(a' / 2, b / 2, size / 2), (a' + b) % 2);
      XorInjective(a / 2, a' / 2, b / 2, size / 2);
      SameParity(a, a', b);
    }
  }

  lemma SameParity(a: nat, a': nat, b: nat)
    requires (a + b) % 2 == (a' + b) % 2
    ensures a / 2 == a' / 2 ==> a == a'
  {
  }

  lemma SameParts(p: nat, x: nat, p': nat, x': nat)
    requires 2 * p + x == 2 * p' + x' && x < 2 && x' < 2
    ensures p == p' && x == x'
  {
  }

  function TwoTo(w: nat): (n: nat)
    ensures IsPow2(n)
  {
    if w == 0 then 1 else 2 * TwoTo(w - 1)
  }

  /** The bimodal index hashes the high address bits into the low ones. */
  function BimodIndex(baddr: nat, size: nat): (i: nat)
    requires IsPow2(size)
    ensures i < size
  {
    XorBelow(baddr / 0x80000, baddr / 8, size)
  }

  function L1Index(baddr: nat, l1size: nat): (i: nat)
    requires IsPow2(l1size)
    ensures i < l1size
  {
    (baddr / 8) % l1size
  }

  /** History in the low `width` bits, plain or xored with the branch address,
      the branch address above them; a 32-bit word cut to the table size. */
  function L2Index(hist: nat, baddr: nat, width: nat, xor: bool, l2size: nat): (i: nat)
    requires IsPow2(l2size) && hist < TwoTo(width)
    ensures i < l2size
  {
    var low := if xor then XorBelow(hist, baddr / 8, TwoTo(width)) else hist;
    Concat(low, baddr / 8, TwoTo(width), 0x1_0000_0000) % l2size
  }

  /** `low` below the bits of k, in one word; m is the weight of k's last bit. */
  function Concat(low: nat, k: nat, m: nat, word: nat): (r: nat)
    requires word > 0
  {
    (low + k * m) % word
  }

  lemma LowPart(low: nat, k: nat, m: nat, size: nat)
    requires m > 0 && size > 0 && low < m && size % m == 0
    ensures ((low + k * m) % size) % m == low
  {
    var x := low + k * m;
    var q, r, c := x / size, x % size, size / m;
    assert x == q * size + r && size == c * m;
    Assoc(q, c, m);
    Distribute(k, q * c, m);
    assert r == (k - q * c) * m + low;
    DivModUnique(r, m, k - q * c, low);
  }

  /** A table with room for every history keeps all histories of a branch apart:
      different histories of one branch use different counters. */
  lemma {:induction false} HistoriesApart(hist: nat, hist': nat, baddr: nat, width: nat, xor: bool, l2size: nat)
    requires IsPow2(l2size) && TwoTo(width) <= l2size <= 0x1_0000_0000
    requires hist < TwoTo(width) && hist' < TwoTo(width) && hist != hist'
    ensures L2Index(hist, baddr, width, xor, l2size) != L2Index(hist', baddr, width, xor, l2size)
  {
    var m, k := TwoTo(width), baddr / 8;
    L2Low(hist, baddr, width, xor, l2size);
    L2Low(hist', baddr, width, xor, l2size);
    if xor && XorBelow(hist, k, m) == XorBelow(hist', k, m) {
      XorInjective(hist, hist', k, m);
    }
  }

  lemma {:induction false} L2Low(hist: nat, baddr: nat, width: nat, xor: bool, l2size: nat)
    requires IsPow2(l2size) && TwoTo(width) <= l2size <= 0x1_0000_0000
    requires hist < TwoTo(width)
    ensures L2Index(hist, baddr, width, xor, l2size) % TwoTo(width)
         == if xor then XorBelow(hist, baddr / 8, TwoTo(width)) else hist
  {
    var m, k := TwoTo(width), baddr / 8;
    SpaceIsPow2();
    LowTwice(if xor then XorBelow(hist, k, m) else hist, k, m, 0x1_0000_0000, l2size);
  }

  lemma {:induction false} LowTwice(low: nat, k: nat, m: nat, word: nat, size: nat)
    requires IsPow2(m) && IsPow2(word) && IsPow2(size) && low < m <= size <= word
    ensures Concat(low, k, m, word) % size % m == low
  {
    Divides(m, size);
    Divides(m, word);
    LowPart(low, k, m, word);
    ModOfMod(Concat(low, k, m, word), m, size);
  }

  lemma ModOfMod(r: nat, m: nat, size: nat)
    requires m > 0 && size > 0 && size % m == 0
    ensures (r % size) % m == r % m
  {
    var k, low := r / m, r % m;
    assert r == low + k * m;
    LowPart(low, k, m, size);
  }

  // In a table with fewer counters than histories only the low history bits
  // reach the index.

  lemma {:induction false} XorDouble(a: nat, b: nat, h: nat)
    requires IsPow2(h)
    ensures IsPow2(2 * h) && XorBelow(a, b, 2 * h) == 2 * XorBelow(a / 2, b / 2, h) + (a + b) % 2
  {
    assert (2 * h) / 2 == h && (2 * h) % 2 == 0;
  }

  lemma Halves(size: nat) returns (h: nat)
    requires IsPow2(size) && size > 1
    ensures IsPow2(h) && size == 2 * h && h < size
  {
    h := size / 2;
  }

  /** Cutting an exclusive or further. */
  lemma {:induction false} XorCut(a: nat, b: nat, size: nat, m: nat)
    requires IsPow2(size) && IsPow2(m) && size <= m
    ensures XorBelow(a, b, m) % size == XorBelow(a, b, size)
  {
    if size > 1 {
      var h := Halves(size);
      var g := Halves(m);
      XorCut(a / 2, b / 2, h, g);
      XorDouble(a, b, h);
      XorDouble(a, b, g);
      DoubleModBig(XorBelow(a / 2, b / 2, g), (a + b) % 2, h);
    }
  }

  lemma {:induction false} XorLow(a: nat, b: nat, size: nat)
    requires IsPow2(size)
    ensures XorBelow(a % size, b, size) == XorBelow(a, b, size)
  {
    if size > 1 {
      var h := Halves(size);
      DoubleModBig(a / 2, a % 2, h);
      XorDouble(a, b, h);
      XorDouble(a % size, b, h);
      XorLow(a / 2, b / 2, h);
      LowHalf(a, (a / 2) % h, b);
    }
  }

  lemma LowHalf(a: nat, x: nat, b: nat)
    ensures (2 * x + a % 2) / 2 == x && (2 * x + a % 2 + b) % 2 == (a + b) % 2
  {
  }

  lemma DropMultiple(low: nat, k: nat, m: nat, size: nat)
    requires size > 0 && m % size == 0
    ensures (low + k * m) % size == low % size
  {
    var q, r, c := low / size, low % size, m / size;
    assert low == q * size + r && m == c * size;
    Assoc(k, c, size);
    Distribute(q, k * c, size);
    DivModUnique(low + k * m, size, q + k * c, r);
  }

  lemma ConcatLow(low: nat, k: nat, m: nat, word: nat, size: nat)
    requires size > 0 && word > 0 && m % size == 0 && word % size == 0
    ensures Concat(low, k, m, word) % size == low % size
  {
    ModOfMod(low + k * m, size, word);
    DropMultiple(low, k, m, size);
  }

  lemma {:induction false} L2Small(hist: nat, baddr: nat, width: nat, xor: bool, l2size: nat)
    requires IsPow2(l2size) && l2size <= TwoTo(width) && l2size <= 0x1_0000_0000 && hist < TwoTo(width)
    ensures L2Index(hist, baddr, width, xor, l2size)
         == if xor then XorBelow(hist % l2size, baddr / 8, l2size) else hist % l2size
  {
    var m, k := TwoTo(width), baddr / 8;
    SpaceIsPow2();
    Divides(l2size, m);
    Divides(l2size, 0x1_0000_0000);
    if xor {
      XorCut(hist, k, l2size, m);
      XorLow(hist, k, l2size);
      ConcatLow(XorBelow(hist, k, m), k, m, 0x1_0000_0000, l2size);
    } else {
      ConcatLow(hist, k, m, 0x1_0000_0000, l2size);
    }
  }

  /** There, histories share a counter exactly when they agree in their latest
      outcomes, as many as the index has bits. */
  lemma {:induction false} HistoriesMeet(hist: nat, hist': nat, baddr: nat, width: nat, xor: bool, l2size: nat)
    requires IsPow2(l2size) && l2size <= TwoTo(width) && l2size <= 0x1_0000_0000
    requires hist < TwoTo(width) && hist' < TwoTo(width)
    ensures L2Index(hist, baddr, width, xor, l2size) == L2Index(hist', baddr, width, xor, l2size) <==>
              hist % l2size == hist' % l2size
  {
    L2Small(hist, baddr, width, xor, l2size);
    L2Small(hist', baddr, width, xor, l2size);
    var x, x', k := hist % l2size, hist' % l2size, baddr / 8;
    if xor && XorBelow(x, k, l2size) == XorBelow(x', k, l2size) {
      XorInjective(x, x', k, l2size);
    }
  }

  /** A smaller table merges two histories of every branch. */
  lemma {:induction false} SmallMerges(baddr: nat, width: nat, xor: bool, l2size: nat)
    requires IsPow2(l2size) && l2size <= 0x1_0000_0000 && l2size < TwoTo(width)
    ensures L2Index(0, baddr, width, xor, l2size) == L2Index(l2size, baddr, width, xor, l2size)
  {
    HistoriesMeet(0, l2size, baddr, width, xor, l2size);
    DivModUnique(l2size, l2size, 1, 0);
    DivModUnique(0, l2size, 0, 0);
  }

  ghost predicate Apart(hist: nat, hist': nat, baddr: nat, width: nat, xor: bool, l2size: nat)
    requires IsPow2(l2size)
  {
    hist < TwoTo(width) && hist' < TwoTo(width) && hist != hist' ==>
      L2Index(hist, baddr, width, xor, l2size) != L2Index(hist', baddr, width, xor, l2size)
  }

  /** So a table keeps the histories of a branch apart exactly when it has a
      counter for each history. */
  lemma {:induction false} HistoriesApartExactly(baddr: nat, width: nat, xor: bool, l2size: nat)
    requires IsPow2(l2size) && l2size <= 0x1_0000_0000
    ensures TwoTo(width) <= l2size <==> forall h: nat, h': nat :: Apart(h, h', baddr, width, xor, l2size)
  {
    if TwoTo(width) <= l2size {
      forall h: nat, h': nat ensures Apart(h, h', baddr, width, xor, l2size) {
        if h < TwoTo(width) && h' < TwoTo(width) && h != h' {
          HistoriesApart(h, h', baddr, width, xor, l2size);
        }
      }
    } else {
      SmallMerges(baddr, width, xor, l2size);
      assert !Apart(0, l2size, baddr, width, xor, l2size);
    }
  }

  // ---- the indices, bit by bit ----

  /** Bit k of a number. */
  function Bit(x: nat, k: nat): bool { if k == 0 then x % 2 == 1 else Bit(x / 2, k - 1) }

  lemma BitDouble(h: nat, p: nat, k: nat)
    requires p < 2
    ensures Bit(2 * h + p, k) == if k == 0 then p == 1 else Bit(h, k - 1)
  {
  }

  lemma {:induction false} XorBits(a: nat, b: nat, size: nat, k: nat)
    requires IsPow2(size) && TwoTo(k) < size
    ensures Bit(XorBelow(a, b, size), k) == (Bit(a, k) != Bit(b, k))
    decreases k
  {
    var half := Halves(size);
    XorDouble(a, b, half);
    BitDouble(XorBelow(a / 2, b / 2, half), (a + b) % 2, k);
    if k > 0 {
      XorBits(a / 2, b / 2, half, k - 1);
    }
  }

  /** A remainder keeps the low bits. */
  lemma {:induction false} BitMod(x: nat, size: nat, k: nat)
    requires IsPow2(size) && TwoTo(k) < size
    ensures Bit(x % size, k) == Bit(x, k)
    decreases k
  {
    var h := Halves(size);
    HalfMod(x, h);
    if k > 0 {
      BitMod(x / 2, h, k - 1);
    }
  }

  lemma HalfMod(x: nat, h: nat)
    requires h > 0
    ensures x % (2 * h) % 2 == x % 2 && x % (2 * h) / 2 == x / 2 % h
  {
    var q, r := x / (2 * h), x % (2 * h);
    assert x == q * (2 * h) + r && q * (2 * h) == 2 * (q * h);
    DivModUnique(x / 2, h, q, r / 2);
  }

  /** A number below 2 to the w, under the bits of another one. */
  lemma {:induction false} BitConcat(n: nat, low: nat, x: nat, w: nat, k: nat)
    requires low < TwoTo(w) && n == low + x * TwoTo(w)
    ensures Bit(n, k) == if k < w then Bit(low, k) else Bit(x, k - w)
    decreases w
  {
    if w > 0 {
      var m := TwoTo(w - 1);
      Assoc(2, x, m);
      Assoc(x, 2, m);
      assert n == low + 2 * (x * m);
      if k > 0 {
        BitConcat(n / 2, low / 2, x, w - 1, k - 1);
      }
    }
  }

  lemma {:induction false} ShiftBy3(x: nat, k: nat)
    ensures Bit(x / 8, k) == Bit(x, k + 3)
  {
    assert x / 2 / 2 / 2 == x / 8;
    assert Bit(x, k + 3) == Bit(x / 2, k + 2) == Bit(x / 2 / 2, k + 1) == Bit(x / 2 / 2 / 2, k);
  }

  lemma EighthParts(x: nat, m: nat, u: nat, v: nat, r: nat)
    requires m > 0 && x == (u * 8 + v) * m + r && r < m && v < 8
    ensures x / (8 * m) == u
  {
    Distribute(u * 8, v, m);
    Distribute(7, v, m);
    Assoc(u, 8, m);
    assert (7 - v) * m >= 0;
    DivModUnique(x, 8 * m, u, v * m + r);
  }

  lemma Eighth(x: nat, m: nat, q: nat)
    requires m > 0 && q == x / m
    ensures q / 8 == x / (8 * m)
  {
    EighthParts(x, m, q / 8, q % 8, x % m);
  }

  lemma {:induction false} Shifts(x: nat, k: nat)
    ensures Bit(x / 8, k) == Bit(x, k + 3) && Bit(x / 0x80000, k) == Bit(x, k + 19)
  {
    var a := x / 8;
    var b := a / 8;
    var c := b / 8;
    var d := c / 8;
    var e := d / 8;
    var f := e / 8;
    ShiftBy3(x, k);
    ShiftBy3(x, k + 16);
    ShiftBy3(a, k + 13);
    ShiftBy3(b, k + 10);
    ShiftBy3(c, k + 7);
    ShiftBy3(d, k + 4);
    ShiftBy3(e, k + 1);
    Eighth(x, 8, a);
    Eighth(x, 64, b);
    Eighth(x, 512, c);
    Eighth(x, 4096, d);
    Eighth(x, 32768, e);
    assert f / 2 == x / 0x80000 && Bit(f, k + 1) == Bit(f / 2, k);
  }

  /** The indices by their bits: bit k of the bimodal index is the exclusive or of bits
      k + 19 and k + 3 of the branch address; that of a history register is bit k + 3. */
  lemma {:induction false} IndexBits(baddr: nat, size: nat, k: nat)
    requires IsPow2(size) && TwoTo(k) < size
    ensures Bit(BimodIndex(baddr, size), k) == (Bit(baddr, k + 19) != Bit(baddr, k + 3))
    ensures Bit(L1Index(baddr, size), k) == Bit(baddr, k + 3)
  {
    Shifts(baddr, k);
    XorBits(baddr / 0x80000, baddr / 8, size, k);
    BitMod(baddr / 8, size, k);
  }

  lemma Weighted(x: nat, m: nat) returns (p: nat)
    ensures p == x * m
  {
    p := x * m;
  }

  lemma {:induction false} ConcatBits(n: nat, low: nat, x: nat, width: nat, size: nat, k: nat)
    requires IsPow2(size) && TwoTo(k) < size <= 0x1_0000_0000 && low < TwoTo(width) && n == low + x * TwoTo(width)
    ensures Bit((n % 0x1_0000_0000) % size, k) == if k < width then Bit(low, k) else Bit(x, k - width)
  {
    SpaceIsPow2();
    BitMod(n % 0x1_0000_0000, size, k);
    BitMod(n, 0x1_0000_0000, k);
    BitConcat(n, low, x, width, k);
  }

  /** The second-level index has the history in its low bits, where asked for the
      exclusive or of it and the branch address, and the branch address above them. */
  lemma {:induction false} L2Bits(hist: nat, baddr: nat, width: nat, xor: bool, l2size: nat, k: nat)
    requires IsPow2(l2size) && TwoTo(k) < l2size <= 0x1_0000_0000 && hist < TwoTo(width)
    ensures Bit(L2Index(hist, baddr, width, xor, l2size), k)
         == if k >= width then Bit(baddr, k - width + 3)
            else if xor then Bit(hist, k) != Bit(baddr, k + 3)
            else Bit(hist, k)
  {
    var m, x := TwoTo(width), baddr / 8;
    var low := if xor then XorBelow(hist, x, m) else hist;
    var high := Weighted(x, m);
    ConcatBits(low + high, low, x, width, l2size, k);
    if k >= width {
      ShiftBy3(baddr, k - width);
    } else {
      ShiftBy3(baddr, k);
      TwoToMonotone(k + 1, width);
      if xor {
        XorBits(hist, x, m, k);
      }
    }
  }

  // ---- histories ----

  /** A resolved branch that was not an unconditional jump. */
  datatype Outcome = Outcome(baddr: nat, taken: bool)

  function Value(bits: seq<bool>): nat {
    if bits == [] then 0 else 2 * Value(bits[..|bits| - 1]) + if bits[|bits| - 1] then 1 else 0
  }

  /** The outcomes that shift register i has seen. */
  function OutcomesAt(log: seq<Outcome>, i: nat, l1size: nat): seq<bool>
    requires IsPow2(l1size)
  {
    if log == [] then []
    else
      var o := log[|log| - 1];
      OutcomesAt(log[..|log| - 1], i, l1size) + if L1Index(o.baddr, l1size) == i then [o.taken] else []
  }

  function Register(log: seq<Outcome>, i: nat, l1size: nat, width: nat): (r: nat)
    requires IsPow2(l1size)
    ensures r < TwoTo(width)
  {
    History(OutcomesAt(log, i, l1size), width)
  }

  /** The binary number of the outcomes, cut to `width` bits. */
  function History(outs: seq<bool>, width: nat): (h: nat)
    ensures h < TwoTo(width)
  {
    Value(outs) % TwoTo(width)
  }

  /** Shifting one outcome in. */
  function Shifted(h: nat, o: bool, width: nat): (r: nat)
    ensures r < TwoTo(width)
  {
    (2 * h + if o then 1 else 0) % TwoTo(width)
  }

  lemma HistorySnoc(outs: seq<bool>, o: bool, width: nat)
    ensures History(outs + [o], width) == Shifted(History(outs, width), o, width)
  {
    assert (outs + [o])[..|outs|] == outs;
    DoubleMod(Value(outs), if o then 1 else 0, TwoTo(width));
  }

  lemma DoubleMod(v: nat, b: nat, m: nat)
    requires m > 0 && b < 2
    ensures (2 * (v % m) + b) % m == (2 * v + b) % m
  {
    var q, r := v / m, v % m;
    assert v == q * m + r;
    var q', r' := (2 * r + b) / m, (2 * r + b) % m;
    assert 2 * r + b == q' * m + r';
    Distribute(2 * q, q', m);
    Assoc(2, q, m);
    DivModUnique(2 * v + b, m, 2 * q + q', r');
  }

  lemma {:induction false} RegisterStep(log: seq<Outcome>, o: Outcome, i: nat, l1size: nat, width: nat)
    requires IsPow2(l1size)
    ensures Register(log + [o], i, l1size, width)
         == if L1Index(o.baddr, l1size) == i then Shifted(Register(log, i, l1size, width), o.taken, width)
            else Register(log, i, l1size, width)
  {
    var outs := OutcomesAt(log, i, l1size);
    assert (log + [o])[..|log|] == log && outs + [] == outs;
    HistorySnoc(outs, o.taken, width);
  }

  lemma {:induction false} ValueBound(bits: seq<bool>)
    ensures Value(bits) < TwoTo(|bits|)
  {
    if bits != [] {
      ValueBound(bits[..|bits| - 1]);
    }
  }

  lemma {:induction false} ValueTail(bits: seq<bool>, w: nat)
    requires w <= |bits|
    ensures Value(bits) % TwoTo(w) == Value(bits[|bits| - w..])
  {
    if w == 0 {
      assert bits[|bits|..] == [];
    } else {
      var n := |bits| - 1;
      var m := TwoTo(w - 1);
      var tail := bits[|bits| - w..];
      ValueTail(bits[..n], w - 1);
      assert tail[..w - 1] == bits[..n][n - (w - 1)..];
      DoubleModBig(Value(bits[..n]), if bits[n] then 1 else 0, m);
    }
  }

  lemma DoubleModBig(v: nat, b: nat, m: nat)
    requires m > 0 && b < 2
    ensures (2 * v + b) % (2 * m) == 2 * (v % m) + b
  {
    var q, r := v / m, v % m;
    assert v == q * m + r;
    Assoc(q, 2, m);
    Assoc(2, q, m);
    DivModUnique(2 * v + b, 2 * m, q, 2 * r + b);
  }

  /** A shift register is the binary number written by its last `width` outcomes. */
  lemma {:induction false} RegisterIsLastOutcomes(log: seq<Outcome>, i: nat, l1size: nat, width: nat)
    requires IsPow2(l1size)
    ensures var outs := OutcomesAt(log, i, l1size);
            Register(log, i, l1size, width) == Value(if |outs| <= width then outs else outs[|outs| - width..])
  {
    var outs := OutcomesAt(log, i, l1size);
    if |outs| <= width {
      ValueBound(outs);
      TwoToMonotone(|outs|, width);
      DivModUnique(Value(outs), TwoTo(width), 0, Value(outs));
    } else {
      ValueTail(outs, width);
    }
  }

  lemma {:induction false} TwoToMonotone(a: nat, b: nat)
    requires a <= b
    ensures TwoTo(a) <= TwoTo(b)
  {
    if a < b {
      TwoToMonotone(a, b - 1);
    }
  }

  // ---- counters ----

  function Bump(c: nat, up: bool): (r: nat)
    requires c <= 3
    ensures r <= 3
  {
    if up then (if c < 3 then c + 1 else c) else (if c > 0 then c - 1 else c)
  }

  predicate Taken(c: nat) { c >= 2 }

  /** A counter after a sequence of outcomes. */
  function TrainedBy(c: nat, outs: seq<bool>): (r: nat)
    requires c <= 3
    ensures r <= 3
  {
    if outs == [] then c else Bump(TrainedBy(c, outs[..|outs| - 1]), outs[|outs| - 1])
  }

  /** Two equal outcomes in a row decide the next prediction, whatever came before. */
  lemma {:induction false} TwoInARow(c: nat, outs: seq<bool>, o: bool)
    requires c <= 3
    ensures Taken(TrainedBy(c, outs + [o] + [o])) == o
  {
    assert (outs + [o] + [o])[..|outs| + 1] == outs + [o] && (outs + [o])[..|outs|] == outs;
  }

  /** Three equal outcomes saturate a counter: then one other outcome does not turn its
      prediction, a second one does, and one more of the first kind turns it back. */
  lemma {:induction false} Saturates(c: nat, outs: seq<bool>, o: bool)
    requires c <= 3
    ensures var full := outs + [o] + [o] + [o];
            && TrainedBy(c, full) == (if o then 3 else 0)
            && Taken(TrainedBy(c, full + [!o])) == o
            && Taken(TrainedBy(c, full + [!o] + [!o])) == !o
            && Taken(TrainedBy(c, full + [!o] + [!o] + [o])) == o
  {
    var a, b := outs + [o], outs + [o] + [o];
    var full := b + [o];
    assert a[..|outs|] == outs && b[..|a|] == a && full[..|b|] == b;
    assert TrainedBy(c, a) == Bump(TrainedBy(c, outs), o) && TrainedBy(c, b) == Bump(TrainedBy(c, a), o);
    assert TrainedBy(c, full) == Bump(TrainedBy(c, b), o);
    var x, y := full + [!o], full + [!o] + [!o];
    var z := y + [o];
    assert x[..|full|] == full && y[..|x|] == x && z[..|y|] == y;
  }

  // ---- the predictor in place ----

  /** A pointer to a counter, as the update record keeps it. */
  datatype Counter = BimodCtr(i: nat) | TwoLevCtr(i: nat) | MetaCtr(i: nat)

  datatype DirUpdate = DirUpdate(pdir1: Option<Counter>, pdir2: Option<Counter>, pmeta: Option<Counter>,
                                 bimod: bool, twolev: bool)

  const NO_UPDATE := DirUpdate(None, None, None, false, false)

  datatype Tables = Tables(bimod: seq<nat>, l2table: seq<nat>, meta: seq<nat>) {
    ghost predicate Saturating() { InRange(bimod) && InRange(l2table) && InRange(meta) }

    predicate Has(c: Counter) {
      match c
      case BimodCtr(i) => i < |bimod|
      case TwoLevCtr(i) => i < |l2table|
      case MetaCtr(i) => i < |meta|
    }

    function Get(c: Counter): nat
      requires Has(c)
    {
      match c
      case BimodCtr(i) => bimod[i]
      case TwoLevCtr(i) => l2table[i]
      case MetaCtr(i) => meta[i]
    }

    function Set(c: Counter, v: nat): (t: Tables)
      requires Has(c)
      ensures SameSizes(this, t)
      ensures forall d :: Has(d) ==> t.Get(d) == if d == c then v else Get(d)
    {
      match c
      case BimodCtr(i) => this.(bimod := bimod[i := v])
      case TwoLevCtr(i) => this.(l2table := l2table[i := v])
      case MetaCtr(i) => this.(meta := meta[i := v])
    }
  }

  predicate SameSizes(t: Tables, t': Tables) {
    |t.bimod| == |t'.bimod| && |t.l2table| == |t'.l2table| && |t.meta| == |t'.meta|
  }

  ghost predicate InRange(table: seq<nat>) {
    forall k :: 0 <= k < |table| ==> table[k] <= 3
  }

  /** An update record that a lookup may have issued: its counters exist, and the
      three of them are of different tables. */
  ghost predicate Issued(t: Tables, u: DirUpdate) {
    && (u.pdir1.Some? ==> t.Has(u.pdir1.value))
    && (u.pdir2.Some? ==> t.Has(u.pdir2.value) && u.pdir1.Some? && u.pdir1 != u.pdir2)
    && (u.pmeta.Some? ==> t.Has(u.pmeta.value) && u.pmeta.value.MetaCtr?)
    && (u.pdir1.Some? ==> !u.pdir1.value.MetaCtr?) && (u.pdir2.Some? ==> !u.pdir2.value.MetaCtr?)
  }

  /** A counter after an update: the two direction counters follow the outcome, and
      the meta counter moves towards the component that was right if just one was. */
  function NextCounter(t: Tables, taken: bool, u: DirUpdate, c: Counter): nat
    requires t.Has(c) && t.Get(c) <= 3
  {
    if u.pdir1 == Some(c) || u.pdir2 == Some(c) then Bump(t.Get(c), taken)
    else if u.pmeta == Some(c) && u.bimod != u.twolev then Bump(t.Get(c), u.twolev == taken)
    else t.Get(c)
  }

  /** Both direction counters learn: after two branches with one outcome that used a
      counter, as the component to believe or as the other one, it predicts that outcome. */
  lemma {:induction false} BothLearn(t: Tables, t1: Tables, t2: Tables, u: DirUpdate, v: DirUpdate, o: bool, c: Counter)
    requires t.Has(c) && t.Get(c) <= 3 && t1.Has(c) && t2.Has(c)
    requires Some(c) in {u.pdir1, u.pdir2} && Some(c) in {v.pdir1, v.pdir2}
    requires t1.Get(c) == NextCounter(t, o, u, c) && t2.Get(c) == NextCounter(t1, o, v, c)
    ensures t2.Get(c) >= 2 <==> o
  {
  }

  /** No other counter changes, and the meta counter only when the components disagreed. */
  lemma {:induction false} OthersStay(t: Tables, taken: bool, u: DirUpdate, c: Counter)
    requires Issued(t, u) && t.Has(c) && t.Get(c) <= 3
    requires Some(c) !in {u.pdir1, u.pdir2} && (u.pmeta == Some(c) ==> u.bimod == u.twolev)
    ensures NextCounter(t, taken, u, c) == t.Get(c)
  {
  }

  /** After two branches for which just one component was right, the meta counter that
      both of them moved chooses that component, whatever came before. */
  lemma {:induction false} ChoiceLearns(t: Tables, t1: Tables, t2: Tables, u: DirUpdate, v: DirUpdate, x: bool, y: bool,
                                        c: Counter, twolev: bool)
    requires Issued(t, u) && Issued(t1, v) && u.pmeta == v.pmeta == Some(c) && t.Get(c) <= 3 && t1.Has(c) && t2.Has(c)
    requires u.bimod != u.twolev && v.bimod != v.twolev
    requires (u.twolev == x) == twolev && (v.twolev == y) == twolev
    requires t1.Get(c) == NextCounter(t, x, u, c) && t2.Get(c) == NextCounter(t1, y, v, c)
    ensures t2.Get(c) >= 2 <==> twolev
  {
  }

  /** Every register holds the recent outcomes of its branches. */
  ghost predicate TrueHistories(regs: seq<nat>, log: seq<Outcome>, width: nat) {
    && IsPow2(|regs|)
    && forall i {:trigger regs[i]} :: 0 <= i < |regs| ==> regs[i] == Register(log, i, |regs|, width)
  }

  class DirPredictor {
    const kind: Kind
    const width: nat
    const xor: bool
    var shiftregs: seq<nat>
    var tables: Tables

    ghost var log: seq<Outcome>

    ghost predicate Valid()
      reads this
    {
      && tables.Saturating()
      && (kind.HasBimod() ==> IsPow2(|tables.bimod|))
      && (kind.HasMeta() ==> IsPow2(|tables.meta|))
      && (kind.HasTwoLev() ==> IsPow2(|tables.l2table|) && TrueHistories(shiftregs, log, width))
    }

    constructor (kind: Kind, bimodSize: nat, l1size: nat, l2size: nat, metaSize: nat, width: nat, xor: bool)
      requires IsPow2(bimodSize) && IsPow2(l1size) && IsPow2(l2size) && IsPow2(metaSize) && 1 <= width <= 30
      ensures Valid() && this.kind == kind && this.width == width && this.xor == xor && log == []
      ensures Alternates(tables.bimod, kind.HasBimod(), bimodSize)
      ensures Alternates(tables.l2table, kind.HasTwoLev(), l2size) && Alternates(tables.meta, kind.HasMeta(), metaSize)
      ensures shiftregs == if kind.HasTwoLev() then seq(l1size, _ => 0) else []
    {
      this.kind, this.width, this.xor, log := kind, width, xor, [];
      var b, l, m := [], [], [];
      if kind.HasBimod() {
        b := Flipflop(bimodSize);
      }
      if kind.HasTwoLev() {
        l := Flipflop(l2size);
      }
      if kind.HasMeta() {
        m := Flipflop(metaSize);
      }
      tables := Tables(b, l, m);
      shiftregs := if kind.HasTwoLev() then seq(l1size, _ => 0) else [];
      new;
      forall i | 0 <= i < |shiftregs|
        ensures shiftregs[i] == Register(log, i, |shiftregs|, width)
      {
        DivModUnique(0, TwoTo(width), 0, 0);
      }
    }

    /** A fresh table: weakly not taken and weakly taken in turn. */
    ghost static predicate Alternates(table: seq<nat>, used: bool, size: nat) {
      |table| == (if used then size else 0) && forall k :: 0 <= k < |table| ==> table[k] == 1 + k % 2
    }

    /** The loops that fill the tables. */
    static method Flipflop(size: nat) returns (table: seq<nat>)
      ensures |table| == size && InRange(table)
      ensures forall k :: 0 <= k < size ==> table[k] == 1 + k % 2
    {
      table := [];
      var flipflop := 1;
      for cnt := 0 to size
        invariant |table| == cnt && flipflop == 1 + cnt % 2
        invariant forall k :: 0 <= k < cnt ==> table[k] == 1 + k % 2
      {
        table := table + [flipflop];
        flipflop := 3 - flipflop;
      }
    }

    /** bpred_dir_lookup on the bimodal, the two-level and the meta component. */
    function BimodAt(baddr: nat): (c: Counter)
      requires Valid() && kind.HasBimod()
      reads this
      ensures tables.Has(c) && c.BimodCtr?
    {
      BimodCtr(BimodIndex(baddr, |tables.bimod|))
    }

    function TwoLevAt(baddr: nat): (c: Counter)
      requires Valid() && kind.HasTwoLev()
      reads this
      ensures tables.Has(c) && c.TwoLevCtr?
    {
      TwoLevCtr(L2Index(shiftregs[L1Index(baddr, |shiftregs|)], baddr, width, xor, |tables.l2table|))
    }

    function MetaAt(baddr: nat): (c: Counter)
      requires Valid() && kind.HasMeta()
      reads this
      ensures tables.Has(c) && c.MetaCtr?
    {
      MetaCtr(BimodIndex(baddr, |tables.meta|))
    }

    /** The direction part of bpred_lookup for a branch that is not an
        unconditional jump: the counter to believe comes first. */
    method Lookup(baddr: nat) returns (u: DirUpdate)
      requires Valid()
      ensures Issued(tables, u) && (u.pdir1.Some? <==> kind.HasBimod() || kind.HasTwoLev())
      ensures u.pmeta.Some? <==> kind.HasMeta()
      ensures kind.HasMeta() ==>
                && u.bimod == Taken(tables.Get(BimodAt(baddr))) && u.twolev == Taken(tables.Get(TwoLevAt(baddr)))
                && u.pdir1.value == (if Taken(tables.Get(MetaAt(baddr))) then TwoLevAt(baddr) else BimodAt(baddr))
                && u.pdir2 == Some(if Taken(tables.Get(MetaAt(baddr))) then BimodAt(baddr) else TwoLevAt(baddr))
                && u.pmeta == Some(MetaAt(baddr))
      ensures kind == TwoLevel ==> u.pdir1 == Some(TwoLevAt(baddr)) && u.pdir2 == None
      ensures kind == TwoBit ==> u == NO_UPDATE.(pdir1 := Some(BimodAt(baddr)))
    {
      u := NO_UPDATE;
      match kind
      case Comb =>
        var bimod, twolev, meta := BimodAt(baddr), TwoLevAt(baddr), MetaAt(baddr);
        var chosen := Taken(tables.Get(meta));
        u := DirUpdate(Some(if chosen then twolev else bimod), Some(if chosen then bimod else twolev), Some(meta),
                       Taken(tables.Get(bimod)), Taken(tables.Get(twolev)));
      case TwoLevel =>
        u := u.(pdir1 := Some(TwoLevAt(baddr)));
      case TwoBit =>
        u := u.(pdir1 := Some(BimodAt(baddr)));
      case AlwaysTaken =>
      case NeverTaken =>
    }

    /** The history part of bpred_update, for all but unconditional jumps. */
    method UpdateHistory(baddr: nat, taken: bool)
      requires Valid() && kind.HasTwoLev()
      modifies this`shiftregs, this`log
      ensures Valid() && log == old(log) + [Outcome(baddr, taken)] && |shiftregs| == |old(shiftregs)|
    {
      var l1 := L1Index(baddr, |shiftregs|);
      var reg := Shifted(shiftregs[l1], taken, width);
      forall i | 0 <= i < |shiftregs|
        ensures Register(log + [Outcome(baddr, taken)], i, |shiftregs|, width)
             == if i == l1 then reg else shiftregs[i]
      {
        RegisterStep(log, Outcome(baddr, taken), i, |shiftregs|, width);
      }
      shiftregs := shiftregs[l1 := reg];
      log := log + [Outcome(baddr, taken)];
    }

    /** The counter part of bpred_update. */
    method UpdateCounters(taken: bool, u: DirUpdate)
      requires Valid() && Issued(tables, u)
      modifies this`tables
      ensures Valid() && SameSizes(old(tables), tables)
      ensures forall c :: tables.Has(c) ==> tables.Get(c) == NextCounter(old(tables), taken, u, c)
    {
      if u.pdir1.Some? {
        Adjust(u.pdir1.value, taken);
      }
      if u.pdir2.Some? {
        Adjust(u.pdir2.value, taken);
      }
      if u.pmeta.Some? {
        if u.bimod != u.twolev {
          Adjust(u.pmeta.value, u.twolev == taken);
        }
      }
    }

    method Adjust(c: Counter, up: bool)
      requires Valid() && tables.Has(c)
      modifies this`tables
      ensures Valid() && SameSizes(old(tables), tables)
      ensures forall d :: tables.Has(d) ==>
                tables.Get(d) == if d == c then Bump(old(tables).Get(c), up) else old(tables).Get(d)
    {
      var v := tables.Get(c);
      if up {
        if v < 3 {
          tables := tables.Set(c, v + 1);
        }
      } else if v > 0 {
        tables := tables.Set(c, v - 1);
      }
    }
  }

  // ---- learning a pattern ----

  // One branch at `baddr` alone in a two-level predictor with a counter for every history.

  /** Each outcome of the branch is determined by the `width` outcomes before it. */
  ghost predicate Patterned(outs: seq<bool>, f: nat -> bool, width: nat) {
    forall n :: 0 <= n < |outs| ==> outs[n] == f(History(outs[..n], width))
  }

  /** How often the branch was met with history h. */
  function Met(outs: seq<bool>, h: nat, width: nat): nat {
    if outs == [] then 0
    else Met(outs[..|outs| - 1], h, width) + if History(outs[..|outs| - 1], width) == h then 1 else 0
  }

  /** The counter i after the outcomes, when it was c before. */
  function CounterAfter(outs: seq<bool>, i: nat, c: nat, baddr: nat, width: nat, xor: bool, l2size: nat): (r: nat)
    requires IsPow2(l2size) && c <= 3
    ensures r <= 3
  {
    if outs == [] then c
    else
      var n := |outs| - 1;
      var before := CounterAfter(outs[..n], i, c, baddr, width, xor, l2size);
      if L2Index(History(outs[..n], width), baddr, width, xor, l2size) == i then Bump(before, outs[n]) else before
  }

  /** Twice is enough: a history met two times leaves its counter predicting f. */
  lemma {:induction false} CounterLearns(outs: seq<bool>, f: nat -> bool, h: nat, c: nat,
                                         baddr: nat, width: nat, xor: bool, l2size: nat)
    requires IsPow2(l2size) && TwoTo(width) <= l2size <= 0x1_0000_0000 && h < TwoTo(width) && c <= 3
    requires Patterned(outs, f, width)
    ensures var r := CounterAfter(outs, L2Index(h, baddr, width, xor, l2size), c, baddr, width, xor, l2size);
            && (Met(outs, h, width) >= 1 ==> if f(h) then r >= 1 else r <= 2)
            && (Met(outs, h, width) >= 2 ==> Taken(r) == f(h))
  {
    if outs != [] {
      var n, i := |outs| - 1, L2Index(h, baddr, width, xor, l2size);
      var front, h' := outs[..n], History(outs[..n], width);
      PatternPrefix(outs, f, width, n);
      CounterLearns(front, f, h, c, baddr, width, xor, l2size);
      if h' != h {
        HistoriesApart(h, h', baddr, width, xor, l2size);
      }
      LearnStep(Met(front, h, width), CounterAfter(front, i, c, baddr, width, xor, l2size), h' == h, f(h));
    }
  }

  /** One more meeting with a history whose outcome is always o. */
  lemma LearnStep(met: nat, c: nat, again: bool, o: bool)
    requires c <= 3
    requires (met >= 1 ==> if o then c >= 1 else c <= 2) && (met >= 2 ==> Taken(c) == o)
    ensures var met', c' := met + (if again then 1 else 0), if again then Bump(c, o) else c;
            && (met' >= 1 ==> if o then c' >= 1 else c' <= 2)
            && (met' >= 2 ==> Taken(c') == o)
  {
  }

  /** The predictor after the outcomes of the branch at baddr. */
  ghost predicate Trained(p: DirPredictor, table: seq<nat>, baddr: nat, outs: seq<bool>)
    reads p
  {
    && p.Valid() && p.kind == TwoLevel
    && OutcomesAt(p.log, L1Index(baddr, |p.shiftregs|), |p.shiftregs|) == outs
    && Followed(p.tables.l2table, table, outs, baddr, p.width, p.xor)
  }

  /** Predict a branch and resolve it, as the simulators do. */
  method PredictOne(p: DirPredictor, baddr: nat, taken: bool, ghost table: seq<nat>, ghost outs: seq<bool>)
    returns (guess: bool)
    requires Trained(p, table, baddr, outs)
    modifies p
    ensures Trained(p, table, baddr, outs + [taken])
    ensures var i := L2Index(History(outs, p.width), baddr, p.width, p.xor, |table|);
            guess == Taken(CounterAfter(outs, i, table[i], baddr, p.width, p.xor, |table|))
  {
    var u := p.Lookup(baddr);
    ghost var before := p.tables;
    assert p.shiftregs[L1Index(baddr, |p.shiftregs|)] == History(outs, p.width);
    guess := Taken(p.tables.Get(u.pdir1.value));
    OutcomesSnoc(p.log, Outcome(baddr, taken), |p.shiftregs|);
    p.UpdateHistory(baddr, taken);
    p.UpdateCounters(taken, u);
    FollowedStep(before, p.tables, table, outs, taken, baddr, p.width, p.xor, u);
  }

  /** The guess for outcome n is right if its history was met twice before. */
  ghost predicate Learned(guess: bool, outs: seq<bool>, n: nat, width: nat)
    requires n < |outs|
  {
    Met(outs[..n], History(outs[..n], width), width) >= 2 ==> guess == outs[n]
  }

  ghost predicate AllLearned(guesses: seq<bool>, outs: seq<bool>, width: nat) {
    |guesses| <= |outs| && forall n :: 0 <= n < |guesses| ==> Learned(guesses[n], outs, n, width)
  }

  lemma AllLearnedSnoc(guesses: seq<bool>, guess: bool, outs: seq<bool>, width: nat)
    requires AllLearned(guesses, outs, width) && |guesses| < |outs| && Learned(guess, outs, |guesses|, width)
    ensures AllLearned(guesses + [guess], outs, width)
  {
  }

  lemma {:induction false} LearnsNext(outs: seq<bool>, f: nat -> bool, n: nat, table: seq<nat>, baddr: nat,
                                      width: nat, xor: bool)
    requires Patterned(outs, f, width) && n < |outs| && IsPow2(|table|) && InRange(table)
    requires TwoTo(width) <= |table| <= 0x1_0000_0000
    ensures var i := L2Index(History(outs[..n], width), baddr, width, xor, |table|);
            Learned(Taken(CounterAfter(outs[..n], i, table[i], baddr, width, xor, |table|)), outs, n, width)
  {
    var h := History(outs[..n], width);
    PatternPrefix(outs, f, width, n);
    CounterLearns(outs[..n], f, h, table[L2Index(h, baddr, width, xor, |table|)], baddr, width, xor, |table|);
  }

  /** Predict and resolve every outcome of a patterned branch: after the second
      meeting with a history, every prediction is right. */
  method PredictAll(p: DirPredictor, baddr: nat, outs: seq<bool>, ghost f: nat -> bool) returns (guesses: seq<bool>)
    requires p.Valid() && p.kind == TwoLevel && p.log == []
    requires TwoTo(p.width) <= |p.tables.l2table| <= 0x1_0000_0000 && Patterned(outs, f, p.width)
    modifies p
    ensures |guesses| == |outs| && AllLearned(guesses, outs, p.width)
  {
    ghost var table, w := p.tables.l2table, p.width;
    guesses := [];
    for n := 0 to |outs|
      invariant |guesses| == n && Trained(p, table, baddr, outs[..n])
      invariant AllLearned(guesses, outs, w)
    {
      LearnsNext(outs, f, n, table, baddr, w, p.xor);
      var guess := PredictOne(p, baddr, outs[n], table, outs[..n]);
      AllLearnedSnoc(guesses, guess, outs, w);
      guesses := guesses + [guess];
      assert outs[..n + 1] == outs[..n] + [outs[n]];
    }
  }

  lemma PatternPrefix(outs: seq<bool>, f: nat -> bool, width: nat, n: nat)
    requires Patterned(outs, f, width) && n <= |outs|
    ensures Patterned(outs[..n], f, width)
  {
    assert forall k :: 0 <= k < n ==> outs[..n][..k] == outs[..k] && outs[..n][k] == outs[k];
  }

  lemma {:induction false} OutcomesSnoc(log: seq<Outcome>, o: Outcome, l1size: nat)
    requires IsPow2(l1size)
    ensures var i := L1Index(o.baddr, l1size);
            OutcomesAt(log + [o], i, l1size) == OutcomesAt(log, i, l1size) + [o.taken]
  {
    assert (log + [o])[..|log|] == log;
  }

  /** The table holds the counters that the outcomes lead to. */
  ghost predicate Followed(l2table: seq<nat>, table: seq<nat>, outs: seq<bool>, baddr: nat, width: nat, xor: bool) {
    && IsPow2(|table|) && |l2table| == |table| && InRange(table)
    && forall i {:trigger l2table[i]} :: 0 <= i < |table| ==>
         l2table[i] == CounterAfter(outs, i, table[i], baddr, width, xor, |table|)
  }

  lemma FollowedStep(t: Tables, t': Tables, table: seq<nat>, outs: seq<bool>, o: bool,
                     baddr: nat, width: nat, xor: bool, u: DirUpdate)
    requires Followed(t.l2table, table, outs, baddr, width, xor) && SameSizes(t, t') && t.Saturating()
    requires u.pdir1 == Some(TwoLevCtr(L2Index(History(outs, width), baddr, width, xor, |table|)))
    requires u.pdir2 == None && u.pmeta == None
    requires forall c :: t'.Has(c) ==> t'.Get(c) == NextCounter(t, o, u, c)
    ensures Followed(t'.l2table, table, outs + [o], baddr, width, xor)
  {
    assert (outs + [o])[..|outs|] == outs;
    forall i | 0 <= i < |table|
      ensures t'.l2table[i] == CounterAfter(outs + [o], i, table[i], baddr, width, xor, |table|)
    {
      assert t'.Get(TwoLevCtr(i)) == NextCounter(t, o, u, TwoLevCtr(i));
    }
  }
}
