/** The table-driven cyclic redundancy check (lab2/misc.c): the generator of
    section 3.2.9 of IEEE Std 802.3, high bit first, without final complement.
    Words and bytes are bit strings, high bit first. */
module Crc {
  import opened Pow2

  // ---- bit strings ----

  function Xor(a: seq<bool>, b: seq<bool>): (r: seq<bool>)
    requires |a| == |b|
    ensures |r| == |a| && forall k :: 0 <= k < |a| ==> r[k] == (a[k] != b[k])
  {
    seq(|a|, k requires 0 <= k < |a| => a[k] != b[k])
  }

  function Zeros(n: nat): (r: seq<bool>)
    ensures |r| == n && forall k :: 0 <= k < n ==> !r[k]
  {
    seq(n, _ => false)
  }

  /** 0x04c11db7. */
  function Polynomial(): (p: seq<bool>)
    ensures |p| == 32 && p[31]
  {
    [false, false, false, false, false, true, false, false,
     true, true, false, false, false, false, false, true,
     false, false, false, true, true, true, false, true,
     true, false, true, true, false, true, true, true]
  }

  // ---- division one bit at a time ----

  function Reduce(shifted: seq<bool>, top: bool): (r: seq<bool>)
    requires |shifted| == 32
    ensures |r| == 32
    ensures forall k :: 0 <= k < 32 ==> r[k] == (shifted[k] != (top && Polynomial()[k]))
  {
    if top then Xor(shifted, Polynomial()) else shifted
  }

  /** Multiply by x and reduce by the generator. */
  function BitStep(a: seq<bool>): (r: seq<bool>)
    requires |a| == 32
    ensures |r| == 32
  {
    Reduce(a[1..] + [false], a[0])
  }

  function Steps(a: seq<bool>, n: nat): (r: seq<bool>)
    requires |a| == 32
    ensures |r| == 32
    decreases n
  {
    if n == 0 then a else Steps(BitStep(a), n - 1)
  }

  /** One message bit through the division register. */
  function ShiftIn(a: seq<bool>, bit: bool): (r: seq<bool>)
    requires |a| == 32
    ensures |r| == 32
  {
    Reduce(a[1..] + [false], a[0] != bit)
  }

  /** The remainder after a message, bit by bit. */
  function Serial(a: seq<bool>, bits: seq<bool>): (r: seq<bool>)
    requires |a| == 32
    ensures |r| == 32
    decreases |bits|
  {
    if bits == [] then a else Serial(ShiftIn(a, bits[0]), bits[1..])
  }

  lemma {:induction false} SerialAppend(a: seq<bool>, x: seq<bool>, y: seq<bool>)
    requires |a| == 32
    ensures Serial(a, x + y) == Serial(Serial(a, x), y)
    decreases |x|
  {
    if x == [] {
      assert x + y == y;
    } else {
      assert (x + y)[1..] == x[1..] + y;
      SerialAppend(ShiftIn(a, x[0]), x[1..], y);
    }
  }

  lemma BitStepXor(a: seq<bool>, b: seq<bool>)
    requires |a| == |b| == 32
    ensures BitStep(Xor(a, b)) == Xor(BitStep(a), BitStep(b))
  {
    var x := Xor(a, b);
    forall k | 0 <= k < 32
      ensures BitStep(x)[k] == (BitStep(a)[k] != BitStep(b)[k])
    {
    }
  }

  lemma {:induction false} StepsXor(a: seq<bool>, b: seq<bool>, n: nat)
    requires |a| == |b| == 32
    ensures Steps(Xor(a, b), n) == Xor(Steps(a, n), Steps(b, n))
    decreases n
  {
    if n > 0 {
      BitStepXor(a, b);
      StepsXor(BitStep(a), BitStep(b), n - 1);
    }
  }

  /** At most a word of message bits can be added to the register at once. */
  lemma {:induction false} SerialIsSteps(a: seq<bool>, bits: seq<bool>)
    requires |a| == 32 && |bits| <= 32
    ensures Serial(a, bits) == Steps(Xor(a, bits + Zeros(32 - |bits|)), |bits|)
    decreases |bits|
  {
    var x := Xor(a, bits + Zeros(32 - |bits|));
    if bits == [] {
      assert x == a;
    } else {
      var rest := bits[1..];
      SerialIsSteps(ShiftIn(a, bits[0]), rest);
      assert BitStep(x) == Xor(ShiftIn(a, bits[0]), rest + Zeros(32 - |rest|));
    }
  }

  /** Bits that do not reach the top are only moved. */
  lemma {:induction false} StepsMove(w: seq<bool>, n: nat)
    requires |w| + n == 32
    ensures Steps(Zeros(n) + w, n) == w + Zeros(n)
    decreases n
  {
    var a := Zeros(n) + w;
    if n == 0 {
      assert a == w == w + Zeros(n);
    } else {
      assert BitStep(a) == Zeros(n - 1) + (w + [false]);
      StepsMove(w + [false], n - 1);
      assert (w + [false]) + Zeros(n - 1) == w + Zeros(n);
    }
  }

  // ---- one byte at a time ----

  /** The table entry of a byte. */
  function Entry(b: seq<bool>): (r: seq<bool>)
    requires |b| == 8
    ensures |r| == 32
  {
    Steps(b + Zeros(24), 8)
  }

  function ByteStep(a: seq<bool>, b: seq<bool>): (r: seq<bool>)
    requires |a| == 32 && |b| == 8
    ensures |r| == 32
  {
    Xor(a[8..] + Zeros(8), Entry(Xor(a[..8], b)))
  }

  /** The table-driven step divides eight message bits. */
  lemma {:induction false} ByteStepDivides(a: seq<bool>, b: seq<bool>)
    requires |a| == 32 && |b| == 8
    ensures ByteStep(a, b) == Serial(a, b)
  {
    var top, low := Xor(a[..8], b) + Zeros(24), Zeros(8) + a[8..];
    assert Xor(a, b + Zeros(24)) == Xor(low, top);
    SerialIsSteps(a, b);
    StepsXor(low, top, 8);
    StepsMove(a[8..], 8);
  }

  /** The bytes of a word, low byte first, as message bits. */
  function WordBits(d: seq<bool>): (bits: seq<bool>)
    requires |d| == 32
    ensures |bits| == 32
  {
    d[24..] + d[16..24] + d[8..16] + d[..8]
  }

  function Update(a: seq<bool>, d: seq<bool>): (r: seq<bool>)
    requires |a| == 32 && |d| == 32
    ensures |r| == 32
  {
    ByteStep(ByteStep(ByteStep(ByteStep(a, d[24..]), d[16..24]), d[8..16]), d[..8])
  }

  ghost predicate Words(ds: seq<seq<bool>>) {
    forall k :: 0 <= k < |ds| ==> |ds[k]| == 32
  }

  ghost function Checksum(a: seq<bool>, ds: seq<seq<bool>>): (r: seq<bool>)
    requires |a| == 32 && Words(ds)
    ensures |r| == 32
  {
    if ds == [] then a else Update(Checksum(a, ds[..|ds| - 1]), ds[|ds| - 1])
  }

  ghost function MessageBits(ds: seq<seq<bool>>): seq<bool>
    requires Words(ds)
  {
    if ds == [] then [] else MessageBits(ds[..|ds| - 1]) + WordBits(ds[|ds| - 1])
  }

  lemma {:induction false} UpdateDivides(a: seq<bool>, d: seq<bool>)
    requires |a| == 32 && |d| == 32
    ensures Update(a, d) == Serial(a, WordBits(d))
  {
    var b0, b1, b2, b3 := d[24..], d[16..24], d[8..16], d[..8];
    var a1 := ByteStep(a, b0);
    var a2 := ByteStep(a1, b1);
    var a3 := ByteStep(a2, b2);
    ByteStepDivides(a, b0);
    ByteStepDivides(a1, b1);
    ByteStepDivides(a2, b2);
    ByteStepDivides(a3, b3);
    SerialAppend(a, b0, b1);
    SerialAppend(a, b0 + b1, b2);
    SerialAppend(a, b0 + b1 + b2, b3);
  }

  /** The checksum of any word sequence is its bit-serial remainder. */
  lemma {:induction false} ChecksumDivides(a: seq<bool>, ds: seq<seq<bool>>)
    requires |a| == 32 && Words(ds)
    ensures Checksum(a, ds) == Serial(a, MessageBits(ds))
  {
    if ds != [] {
      var front, d := ds[..|ds| - 1], ds[|ds| - 1];
      ChecksumDivides(a, front);
      UpdateDivides(Checksum(a, front), d);
      SerialAppend(a, MessageBits(front), WordBits(d));
    }
  }

  // ---- polynomials over two elements ----

  /** The generator of degree 32, by the exponents of its terms. */
  function Generator(): (g: seq<bool>)
    ensures |g| == 33
  {
    seq(33, k => 32 - k in {32, 26, 23, 22, 16, 12, 11, 10, 8, 7, 5, 4, 2, 1, 0})
  }

  lemma GeneratorIs()
    ensures Generator() == [true] + Polynomial()
  {
    var g, p := Generator(), [true] + Polynomial();
    forall k | 0 <= k < 33 ensures g[k] == p[k] {
      assert g[k] <==> 32 - k in {32, 26, 23, 22, 16, 12, 11, 10, 8, 7, 5, 4, 2, 1, 0};
    }
  }

  /** The term that the top coefficient of a quotient stands for. */
  function Term(q: seq<bool>): (r: seq<bool>)
    requires q != []
    ensures |r| == |q| + 32
  {
    if q[0] then Generator() + Zeros(|q| - 1) else Zeros(|q| + 32)
  }

  /** The product of a polynomial and the generator: a sum of shifted generators. */
  function Product(q: seq<bool>): (r: seq<bool>)
    ensures |r| == |q| + 32
  {
    if q == [] then Zeros(32)
    else Xor(Term(q), [false] + Product(q[1..]))
  }

  /** What is divided: the message times x to the 32, and the register times x to the
      number of message bits. */
  function Dividend(a: seq<bool>, bits: seq<bool>): (r: seq<bool>)
    requires |a| == 32
    ensures |r| == |bits| + 32
  {
    Xor(bits + Zeros(32), a + Zeros(|bits|))
  }

  /** Quotient and remainder. */
  ghost predicate IsDivision(x: seq<bool>, q: seq<bool>, r: seq<bool>) {
    |r| == 32 && |x| == |q| + 32 && x == Xor(Product(q), Zeros(|q|) + r)
  }

  ghost predicate IsRemainder(x: seq<bool>, r: seq<bool>) {
    exists q :: IsDivision(x, q, r)
  }

  lemma ShiftedIn(a: seq<bool>, bits: seq<bool>, q: seq<bool>)
    requires |a| == 32 && |bits| == |q| > 0 && q[0] == (a[0] != bits[0])
    ensures Dividend(a, bits) == Xor(Term(q), [false] + Dividend(ShiftIn(a, bits[0]), bits[1..]))
  {
    GeneratorIs();
    var n, a' := |bits|, ShiftIn(a, bits[0]);
    var x, y := Term(q), [false] + Dividend(a', bits[1..]);
    forall k | 0 <= k < n + 32 ensures Dividend(a, bits)[k] == (x[k] != y[k]) {
      if 0 < k <= 32 {
        assert a'[k - 1] == ((a[1..] + [false])[k - 1] != (q[0] && Polynomial()[k - 1]));
      }
    }
  }

  lemma DivisionStep(x: seq<bool>, y: seq<bool>, q: seq<bool>, r: seq<bool>)
    requires q != [] && IsDivision(y, q[1..], r) && x == Xor(Term(q), [false] + y)
    ensures IsDivision(x, q, r)
  {
    var z := Xor(Product(q), Zeros(|q|) + r);
    forall k | 0 <= k < |q| + 32 ensures x[k] == z[k] {
      if k > 0 {
        assert y[k - 1] == (Product(q[1..])[k - 1] != (Zeros(|q| - 1) + r)[k - 1]);
      }
    }
  }

  /** The register after a message is the remainder of a division by the generator. */
  lemma {:induction false} SerialIsRemainder(a: seq<bool>, bits: seq<bool>) returns (q: seq<bool>)
    requires |a| == 32
    ensures |q| == |bits| && IsDivision(Dividend(a, bits), q, Serial(a, bits))
    decreases |bits|
  {
    if bits == [] {
      q := [];
      assert Xor(Product(q), Zeros(0) + a) == a;
    } else {
      var a', rest := ShiftIn(a, bits[0]), bits[1..];
      var q' := SerialIsRemainder(a', rest);
      q := [a[0] != bits[0]] + q';
      assert q[1..] == q';
      ShiftedIn(a, bits, q);
      DivisionStep(Dividend(a, bits), Dividend(a', rest), q, Serial(a', rest));
    }
  }

  lemma {:induction false} HasRemainder(a: seq<bool>, bits: seq<bool>)
    requires |a| == 32
    ensures IsRemainder(Dividend(a, bits), Serial(a, bits))
  {
    var q := SerialIsRemainder(a, bits);
  }

  lemma {:induction false} ProductTop(q: seq<bool>)
    requires q != []
    ensures Product(q)[0] == q[0]
  {
    assert Generator()[0];
  }

  /** A division has one remainder. */
  lemma {:induction false} RemainderOnce(x: seq<bool>, q: seq<bool>, r: seq<bool>, q': seq<bool>, r': seq<bool>)
    requires IsDivision(x, q, r) && IsDivision(x, q', r')
    ensures q == q' && r == r'
    decreases |q|
  {
    if q == [] {
      assert forall k :: 0 <= k < 32 ==> r[k] == x[k] && r'[k] == x[k];
    } else {
      ProductTop(q);
      ProductTop(q');
      assert x[0] == q[0] == q'[0];
      NextDivision(x, q, r);
      NextDivision(x, q', r');
      RemainderOnce(Xor(x, Term(q))[1..], q[1..], r, q'[1..], r');
      assert q == [q[0]] + q[1..] && q' == [q'[0]] + q'[1..];
    }
  }

  lemma NextQuotient(x: seq<bool>, t: seq<bool>, p: seq<bool>, z: seq<bool>)
    requires |x| == |t| == |p| + 1 == |z| + 1 && x == Xor(Xor(t, [false] + p), [false] + z)
    ensures Xor(x, t)[1..] == Xor(p, z)
  {
    forall k | 0 <= k < |p| ensures Xor(x, t)[1..][k] == (p[k] != z[k]) {
      assert ([false] + p)[k + 1] == p[k] && ([false] + z)[k + 1] == z[k];
    }
  }

  lemma {:induction false} ProductStep(q: seq<bool>)
    requires q != []
    ensures Product(q) == Xor(Term(q), [false] + Product(q[1..]))
  {
  }

  lemma ZerosStep(n: nat, r: seq<bool>)
    ensures Zeros(n + 1) + r == [false] + (Zeros(n) + r)
  {
  }

  lemma NextDivision(x: seq<bool>, q: seq<bool>, r: seq<bool>)
    requires q != [] && IsDivision(x, q, r)
    ensures IsDivision(Xor(x, Term(q))[1..], q[1..], r)
  {
    ProductStep(q);
    ZerosStep(|q| - 1, r);
    NextQuotient(x, Term(q), Product(q[1..]), Zeros(|q| - 1) + r);
  }

  /** The bits of a message: bytes low byte first, each with its high bit first. */
  lemma {:induction false} MessageBit(ds: seq<seq<bool>>, n: nat, j: nat, i: nat)
    requires Words(ds) && n < |ds| && j < 4 && i < 8
    ensures |MessageBits(ds)| == 32 * |ds| && MessageBits(ds)[32 * n + 8 * j + i] == ds[n][24 - 8 * j + i]
    decreases |ds|
  {
    var front, d := ds[..|ds| - 1], ds[|ds| - 1];
    MessageLength(front);
    if n < |front| {
      MessageBit(front, n, j, i);
    } else {
      assert MessageBits(ds)[32 * n + 8 * j + i] == WordBits(d)[8 * j + i];
    }
  }

  lemma {:induction false} MessageLength(ds: seq<seq<bool>>)
    requires Words(ds)
    ensures |MessageBits(ds)| == 32 * |ds|
  {
    if ds != [] {
      MessageLength(ds[..|ds| - 1]);
    }
  }

  // ---- linearity and error detection ----

  lemma ShiftInXor(a: seq<bool>, b: seq<bool>, x: bool, y: bool)
    requires |a| == |b| == 32
    ensures ShiftIn(Xor(a, b), x != y) == Xor(ShiftIn(a, x), ShiftIn(b, y))
  {
    forall k | 0 <= k < 32
      ensures ShiftIn(Xor(a, b), x != y)[k] == (ShiftIn(a, x)[k] != ShiftIn(b, y)[k])
    {
    }
  }

  /** The remainder is linear in register and message together. */
  lemma {:induction false} SerialXor(a: seq<bool>, b: seq<bool>, x: seq<bool>, y: seq<bool>)
    requires |a| == |b| == 32 && |x| == |y|
    ensures Serial(Xor(a, b), Xor(x, y)) == Xor(Serial(a, x), Serial(b, y))
    decreases |x|
  {
    if x != [] {
      assert Xor(x, y)[1..] == Xor(x[1..], y[1..]);
      ShiftInXor(a, b, x[0], y[0]);
      SerialXor(ShiftIn(a, x[0]), ShiftIn(b, y[0]), x[1..], y[1..]);
    }
  }

  lemma UpdateXor(a: seq<bool>, b: seq<bool>, d: seq<bool>, e: seq<bool>)
    requires |a| == |b| == |d| == |e| == 32
    ensures Update(Xor(a, b), Xor(d, e)) == Xor(Update(a, d), Update(b, e))
  {
    UpdateDivides(a, d);
    UpdateDivides(b, e);
    UpdateDivides(Xor(a, b), Xor(d, e));
    WordBitsXor(d, e);
    SerialXor(a, b, WordBits(d), WordBits(e));
  }

  lemma WordBitsXor(d: seq<bool>, e: seq<bool>)
    requires |d| == |e| == 32
    ensures WordBits(Xor(d, e)) == Xor(WordBits(d), WordBits(e))
  {
  }

  /** The generator ends in a one, so no step loses information. */
  lemma ReduceInjective(a: seq<bool>, b: seq<bool>, x: bool, y: bool)
    requires |a| == |b| == 32 && ShiftIn(a, x) == ShiftIn(b, y)
    ensures (a[0] != x) == (b[0] != y) && a[1..] == b[1..]
  {
    var p, q := ShiftIn(a, x), ShiftIn(b, y);
    assert p[31] == (a[0] != x) && q[31] == (b[0] != y);
    forall k | 1 <= k < 32
      ensures a[k] == b[k]
    {
      assert p[k - 1] == q[k - 1];
      assert (a[1..] + [false])[k - 1] == a[k] && (b[1..] + [false])[k - 1] == b[k];
    }
  }

  lemma {:induction false} SameMessage(a: seq<bool>, b: seq<bool>, bits: seq<bool>)
    requires |a| == |b| == 32 && Serial(a, bits) == Serial(b, bits)
    ensures a == b
    decreases |bits|
  {
    if bits != [] {
      SameMessage(ShiftIn(a, bits[0]), ShiftIn(b, bits[0]), bits[1..]);
      ReduceInjective(a, b, bits[0], bits[0]);
      assert a == [a[0]] + a[1..] && b == [b[0]] + b[1..];
    }
  }

  lemma {:induction false} StepsInjective(a: seq<bool>, b: seq<bool>, n: nat)
    requires |a| == |b| == 32 && Steps(a, n) == Steps(b, n)
    ensures a == b
    decreases n
  {
    if n > 0 {
      StepsInjective(BitStep(a), BitStep(b), n - 1);
      assert BitStep(a) == ShiftIn(a, false) && BitStep(b) == ShiftIn(b, false);
      ReduceInjective(a, b, false, false);
      assert a == [a[0]] + a[1..] && b == [b[0]] + b[1..];
    }
  }

  lemma {:induction false} SameRegister(a: seq<bool>, x: seq<bool>, y: seq<bool>)
    requires |a| == 32 && |x| == |y| <= 32 && Serial(a, x) == Serial(a, y)
    ensures x == y
  {
    var z := Zeros(32 - |x|);
    SerialIsSteps(a, x);
    SerialIsSteps(a, y);
    StepsInjective(Xor(a, x + z), Xor(a, y + z), |x|);
    forall k | 0 <= k < |x|
      ensures x[k] == y[k]
    {
      assert Xor(a, x + z)[k] == Xor(a, y + z)[k];
    }
  }

  /** Two messages that differ only inside a window of 32 bits have different remainders. */
  lemma {:induction false} BurstDetected(a: seq<bool>, head: seq<bool>, x: seq<bool>, y: seq<bool>, tail: seq<bool>)
    requires |a| == 32 && |x| == |y| <= 32 && x != y
    ensures Serial(a, head + x + tail) != Serial(a, head + y + tail)
  {
    var m := Serial(a, head);
    SerialAppend(a, head, x);
    SerialAppend(a, head, y);
    SerialAppend(a, head + x, tail);
    SerialAppend(a, head + y, tail);
    if Serial(a, head + x + tail) == Serial(a, head + y + tail) {
      SameMessage(Serial(m, x), Serial(m, y), tail);
      SameRegister(m, x, y);
    }
  }

  lemma {:induction false} SelfCancels(a: seq<bool>)
    requires |a| == 32
    ensures Serial(a, a) == Zeros(32)
  {
    SerialIsSteps(a, a);
    assert a + Zeros(0) == a && Xor(a, a) == Zeros(32);
    ZeroSteps(32);
  }

  lemma FirstOne(p: seq<bool>)
    requires p == Polynomial()
    ensures ShiftIn(Zeros(32), true) == p
  {
    forall k | 0 <= k < 32
      ensures ShiftIn(Zeros(32), true)[k] == p[k]
    {
    }
  }

  lemma {:induction false} GeneratorDivides(g: seq<bool>)
    requires g == [true] + Polynomial()
    ensures |g| == 33 && Serial(Zeros(32), g) == Zeros(32)
  {
    assert g[1..] == Polynomial();
    FirstOne(Polynomial());
    SelfCancels(Polynomial());
  }

  lemma XorZeros(a: seq<bool>)
    ensures Xor(a, Zeros(|a|)) == a
  {
  }

  /** A wider window does not do: the generator itself, 33 bits long, is divided
      without remainder, so adding it to a message goes unnoticed. */
  lemma {:induction false} WiderBurstMissed(a: seq<bool>, x: seq<bool>, g: seq<bool>)
    requires |a| == 32 && |x| == 33 && g == [true] + Polynomial()
    ensures |g| == 33 && Serial(a, Xor(x, g)) == Serial(a, x) && Xor(x, g) != x
  {
    GeneratorDivides(g);
    SerialXor(a, Zeros(32), x, g);
    XorZeros(a);
    XorZeros(Serial(a, x));
    assert Xor(x, g)[0] != x[0];
  }

  lemma WordBitsTwice(a: seq<bool>)
    requires |a| == 32
    ensures WordBits(WordBits(a)) == a
  {
    var w := WordBits(a);
    assert w[24..] == a[..8] && w[16..24] == a[8..16] && w[8..16] == a[16..24] && w[..8] == a[24..];
    assert a == a[..8] + a[8..16] + a[16..24] + a[24..];
  }

  /** A message followed by its own remainder, high byte first, has remainder zero. */
  lemma ResidueZero(a: seq<bool>)
    requires |a| == 32
    ensures Update(a, WordBits(a)) == Zeros(32)
  {
    UpdateDivides(a, WordBits(a));
    WordBitsTwice(a);
    SelfCancels(a);
  }

  lemma {:induction false} ZeroSteps(n: nat)
    ensures Steps(Zeros(32), n) == Zeros(32)
    decreases n
  {
    if n > 0 {
      assert BitStep(Zeros(32)) == Zeros(32);
      ZeroSteps(n - 1);
    }
  }

  // ---- the table in place ----

  function ByteVal(b: seq<bool>): (n: nat)
    requires |b| <= 8
    ensures n < Weight(|b|)
  {
    if b == [] then 0 else 2 * ByteVal(b[..|b| - 1]) + if b[|b| - 1] then 1 else 0
  }

  function Weight(n: nat): nat {
    if n == 0 then 1 else 2 * Weight(n - 1)
  }

  /** The low n bits of a number. */
  function BitsOf(v: nat, n: nat): (b: seq<bool>)
    ensures |b| == n
  {
    if n == 0 then [] else BitsOf(v / 2, n - 1) + [v % 2 == 1]
  }

  lemma BitsOfDouble(h: nat, p: bool, n: nat)
    ensures BitsOf(2 * h + if p then 1 else 0, n + 1) == BitsOf(h, n) + [p]
  {
  }

  lemma {:induction false} BitsOfByteVal(b: seq<bool>)
    requires |b| <= 8
    ensures BitsOf(ByteVal(b), |b|) == b
    decreases |b|
  {
    if b != [] {
      var front, p := b[..|b| - 1], b[|b| - 1];
      BitsOfByteVal(front);
      BitsOfDouble(ByteVal(front), p, |front|);
      assert b == front + [p];
    }
  }

  /** crc_table, built on the first call. */
  class Table {
    var init: bool
    const table: array<seq<bool>>

    ghost predicate Valid()
      reads this, table
    {
      table.Length == 256 && (init ==> forall i :: 0 <= i < 256 ==> table[i] == Entry(BitsOf(i, 8)))
    }

    constructor ()
      ensures Valid() && !init && fresh(table)
    {
      init := false;
      table := new seq<bool>[256](_ => []);
    }

    method Gentab()
      requires Valid()
      modifies table
      ensures forall i :: 0 <= i < 256 ==> table[i] == Entry(BitsOf(i, 8))
    {
      var i := 0;
      while i < 256
        invariant 0 <= i <= 256 && forall k :: 0 <= k < i ==> table[k] == Entry(BitsOf(k, 8))
      {
        var accum := BitsOf(i, 8) + Zeros(24);
        var j := 0;
        while j < 8
          invariant 0 <= j <= 8 && |accum| == 32 && Steps(accum, 8 - j) == Entry(BitsOf(i, 8))
        {
          if accum[0] {
            accum := Xor(accum[1..] + [false], Polynomial());
          } else {
            accum := accum[1..] + [false];
          }
          j := j + 1;
        }
        table[i] := accum;
        i := i + 1;
      }
    }

    /** crc: four table steps, the low byte of the data first. */
    method Crc(accum: seq<bool>, data: seq<bool>) returns (r: seq<bool>)
      requires Valid() && |accum| == 32 && |data| == 32
      modifies this, table
      ensures Valid() && init && r == Update(accum, data)
    {
      if !init {
        Gentab();
        init := true;
      }
      r := Apply(accum, data);
    }

    method Apply(accum: seq<bool>, data: seq<bool>) returns (r: seq<bool>)
      requires Valid() && init && |accum| == 32 && |data| == 32
      ensures r == Update(accum, data)
    {
      r := accum;
      var j := 0;
      while j < 4
        invariant 0 <= j <= 4 && |r| == 32 && r == Partial(accum, data, j)
      {
        r := Look(r, ByteAt(data, j));
        j := j + 1;
      }
      FourBytes(accum, data);
    }

    /** One byte through the table. */
    method Look(a: seq<bool>, b: seq<bool>) returns (r: seq<bool>)
      requires Valid() && init && |a| == 32 && |b| == 8
      ensures r == ByteStep(a, b)
    {
      var x := Xor(a[..8], b);
      BitsOfByteVal(x);
      WeightEight();
      r := Xor(a[8..] + Zeros(8), table[ByteVal(x)]);
    }
  }

  lemma WeightEight()
    ensures Weight(8) == 256
  {
    assert Weight(4) == 16;
  }

  /** Byte j of a word, counted from the low end. */
  function ByteAt(d: seq<bool>, j: nat): (b: seq<bool>)
    requires |d| == 32 && j < 4
    ensures |b| == 8
  {
    d[24 - 8 * j..32 - 8 * j]
  }

  ghost function Partial(a: seq<bool>, d: seq<bool>, j: nat): (r: seq<bool>)
    requires |a| == 32 && |d| == 32 && j <= 4
    ensures |r| == 32
  {
    if j == 0 then a else ByteStep(Partial(a, d, j - 1), ByteAt(d, j - 1))
  }

  lemma PartialNext(a: seq<bool>, d: seq<bool>, j: nat)
    requires |a| == 32 && |d| == 32 && 0 < j <= 4
    ensures Partial(a, d, j) == ByteStep(Partial(a, d, j - 1), ByteAt(d, j - 1))
  {
  }

  lemma {:induction false} FourBytes(a: seq<bool>, d: seq<bool>)
    requires |a| == 32 && |d| == 32
    ensures Partial(a, d, 4) == Update(a, d)
  {
    assert ByteAt(d, 0) == d[24..] && ByteAt(d, 1) == d[16..24] && ByteAt(d, 2) == d[8..16] && ByteAt(d, 3) == d[..8];
    PartialNext(a, d, 1);
    PartialNext(a, d, 2);
    PartialNext(a, d, 3);
    PartialNext(a, d, 4);
  }

  /** The checksum of a message, word by word. */
  method ChecksumAll(t: Table, accum: seq<bool>, ds: seq<seq<bool>>) returns (r: seq<bool>)
    requires t.Valid() && |accum| == 32 && Words(ds)
    modifies t, t.table
    ensures t.Valid() && r == Serial(accum, MessageBits(ds))
    ensures IsRemainder(Dividend(accum, MessageBits(ds)), r)
  {
    r := accum;
    for i := 0 to |ds|
      invariant t.Valid() && |r| == 32 && r == Checksum(accum, ds[..i])
    {
      assert ds[..i + 1][..i] == ds[..i];
      r := t.Crc(r, ds[i]);
    }
    assert ds[..|ds|] == ds;
    ChecksumDivides(accum, ds);
    HasRemainder(accum, MessageBits(ds));
  }
}
