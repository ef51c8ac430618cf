/** The values of the expression evaluator (lab2/eval.c) and its operators: integers
    that wrap in 32 and 64 bits, numbers without rounding, and symbols; and what the
    operators compute, said without their definitions. */
module Arithmetic {

  import opened Options

  // ---- values ----

  /** Numeric types in the order of C's arithmetic conversions, and symbols. */
  datatype Type = TInt | TUInt | TAddr | TSQWord | TQWord | TFloat | TDouble | TSymbol {
    function Rank(): nat {
      if TInt? then 0 else if TUInt? then 1 else if TAddr? then 2 else if TSQWord? then 3
      else if TQWord? then 4 else if TFloat? then 5 else if TDouble? then 6 else 7
    }

    predicate Integral() { Rank() <= 4 }
  }

  /** An integer of an integral type, a number without rounding, or a symbol. */
  datatype Value = Whole(ty: Type, n: int) | Fraction(ty: Type, r: real) | Symbol(name: string) {
    function Ty(): Type { if Symbol? then TSymbol else ty }

    predicate Valid() {
      match this
      case Whole(t, n) => t.Integral() && n == Fit(n, t)
      case Fraction(t, r) => t == TFloat || t == TDouble
      case Symbol(_) => true
    }
  }

  /** The value of an integer stored in an integral type: 32 or 64 bits, wrapping. */
  function Fit(n: int, t: Type): int {
    match t
    case TInt => (n + 0x8000_0000) % 0x1_0000_0000 - 0x8000_0000
    case TUInt => n % 0x1_0000_0000
    case TAddr => n % 0x1_0000_0000
    case TSQWord => (n + 0x8000_0000_0000_0000) % 0x1_0000_0000_0000_0000 - 0x8000_0000_0000_0000
    case _ => n % 0x1_0000_0000_0000_0000
  }

  function ResultType(a: Type, b: Type): (t: Type)
    requires a != TSymbol && b != TSymbol
    ensures t == a || t == b
    ensures t.Rank() >= a.Rank() && t.Rank() >= b.Rank()
  {
    if a == TDouble || b == TDouble then TDouble
    else if a == TFloat || b == TFloat then TFloat
    else if a == TQWord || b == TQWord then TQWord
    else if a == TSQWord || b == TSQWord then TSQWord
    else if a == TAddr || b == TAddr then TAddr
    else if a == TUInt || b == TUInt then TUInt
    else
      assert a.TInt? && b.TInt?;
      TInt
  }

  function AsReal(v: Value): real
    requires !v.Symbol?
  {
    if v.Whole? then v.n as real else v.r
  }

  function Abs(x: int): nat { if x < 0 then -x else x }

  /** C's division of integers. */
  function TruncDiv(a: int, b: int): int
    requires b != 0
  {
    var q := Abs(a) / Abs(b);
    if a >= 0 <==> b > 0 then q else -q
  }

  predicate EqZero(v: Value)
    requires !v.Symbol?
  {
    if v.Whole? then v.n == 0 else v.r == 0.0
  }

  /** A divisor that is not zero in its own type is not zero in the result type. */
  lemma DivisorStaysNonzero(a: Value, b: Value)
    requires a.Valid() && b.Valid() && !a.Symbol? && !b.Symbol? && !EqZero(b)
    ensures var t := ResultType(a.Ty(), b.Ty());
            if t.Integral() then b.Whole? && Fit(b.n, t) != 0 else AsReal(b) != 0.0
  {
  }

  datatype Op = Add | Sub | Mul | Div

  function Whole2(op: Op, x: int, y: int): int
    requires op == Div ==> y != 0
  {
    match op
    case Add => x + y
    case Sub => x - y
    case Mul => x * y
    case Div => TruncDiv(x, y)
  }

  function Real2(op: Op, x: real, y: real): real
    requires op == Div ==> y != 0.0
  {
    match op
    case Add => x + y
    case Sub => x - y
    case Mul => x * y
    case Div => x / y
  }

  lemma FitTwice(n: int, t: Type)
    ensures Fit(Fit(n, t), t) == Fit(n, t)
  {
  }

  /** A result stored in an integral type. */
  function Stored(n: int, t: Type): (v: Value)
    requires t.Integral()
    ensures v.Valid() && v.Ty() == t
  {
    FitTwice(n, t);
    Whole(t, Fit(n, t))
  }

  /** The operators on numbers: both operands are converted to the result type. */
  function Arith(op: Op, a: Value, b: Value): (v: Value)
    requires a.Valid() && b.Valid() && !a.Symbol? && !b.Symbol? && (op == Div ==> !EqZero(b))
    ensures v.Valid() && v.Ty() == ResultType(a.Ty(), b.Ty())
  {
    var t := ResultType(a.Ty(), b.Ty());
    assert op == Div ==> (if t.Integral() then b.Whole? && Fit(b.n, t) != 0 else AsReal(b) != 0.0) by {
      if op == Div {
        DivisorStaysNonzero(a, b);
      }
    }
    if t.Integral() then Stored(Whole2(op, Fit(a.n, t), Fit(b.n, t)), t)
    else Fraction(t, Real2(op, AsReal(a), AsReal(b)))
  }

  /** The operators on all values; None is an error. */
  function Apply2(op: Op, a: Value, b: Value): (v: Option<Value>)
    requires a.Valid() && b.Valid()
    ensures v.Some? ==> v.value.Valid()
  {
    if a.Symbol? || b.Symbol? || (op == Div && EqZero(b)) then None else Some(Arith(op, a, b))
  }

  function Negate(a: Value): (v: Value)
    requires a.Valid() && !a.Symbol?
    ensures v.Valid()
  {
    match a
    case Fraction(t, r) => Fraction(t, -r)
    case Whole(t, n) =>
      if t == TQWord || t == TSQWord then Whole(TSQWord, Fit(-n, TSQWord))
      else if t == TAddr then Whole(TAddr, Fit(-n, TAddr))
      else if t == TUInt then
        if n > 2147483648 then Whole(TSQWord, -n) else Whole(TInt, Fit(-n, TInt))
      else if n == -2147483648 then Whole(TUInt, 2147483648)
      else Whole(TInt, -n)
  }

  /** Negation is exact except in 64 bits and for addresses: the type is widened
      or changed of sign when the negated value does not fit. */
  lemma NegateExact(a: Value)
    requires a.Valid() && a.Whole? && (a.ty == TInt || a.ty == TUInt)
    ensures Negate(a).Whole? && Negate(a).n == -a.n
  {
  }

  // ---- what the operators compute, without their definitions ----

  /** The numbers of an integral type: its lowest one and how many there are. */
  function Lowest(t: Type): int {
    if t == TInt then -0x8000_0000 else if t == TSQWord then -0x8000_0000_0000_0000 else 0
  }

  function Modulus(t: Type): (m: int)
    ensures m > 0
  {
    if t == TInt || t == TUInt || t == TAddr then 0x1_0000_0000 else 0x1_0000_0000_0000_0000
  }

  predicate InRange(n: int, t: Type) { Lowest(t) <= n < Lowest(t) + Modulus(t) }

  /** The same number up to the width of the type. */
  predicate Congruent(x: int, y: int, t: Type) { (x - y) % Modulus(t) == 0 }

  /** q is a / b rounded towards zero: as long as it can be, with the sign of the true quotient. */
  predicate Truncates(q: int, a: int, b: int) {
    Abs(q * b) <= Abs(a) < Abs(q * b) + Abs(b) && (q > 0 ==> (a > 0 <==> b > 0)) && (q < 0 ==> (a > 0 <==> b < 0))
  }

  /** The truncated quotient of two operands after their conversion to the type. */
  ghost predicate Divides(x: int, y: int, q: int, a: int, b: int, t: Type) {
    InRange(x, t) && Congruent(x, a, t) && InRange(y, t) && Congruent(y, b, t) && Truncates(q, x, y)
  }

  /** The number of a value that is not a symbol. */
  ghost predicate IsNumber(v: Value, x: real) {
    match v
    case Whole(_, n) => x == n as real
    case Fraction(_, r) => x == r
    case Symbol(_) => false
  }

  /** The wider one of two types. */
  predicate CommonType(t: Type, a: Type, b: Type) {
    (t == a || t == b) && t.Rank() >= a.Rank() && t.Rank() >= b.Rank()
  }

  /** The order of the arithmetic conversions. */
  lemma Widening()
    ensures forall i :: 0 <= i < 8 ==>
              [TInt, TUInt, TAddr, TSQWord, TQWord, TFloat, TDouble, TSymbol][i].Rank() == i
  {
    forall i | 0 <= i < 8
      ensures [TInt, TUInt, TAddr, TSQWord, TQWord, TFloat, TDouble, TSymbol][i].Rank() == i
    {
    }
  }

  ghost predicate WholeOp(op: Op, a: int, b: int, n: int, t: Type) {
    match op
    case Add => Congruent(n, a + b, t)
    case Sub => Congruent(n + b, a, t)
    case Mul => Congruent(n, a * b, t)
    case Div => exists x, y, q :: Divides(x, y, q, a, b, t) && Congruent(n, q, t)
  }

  predicate RealOp(op: Op, x: real, y: real, r: real) {
    match op
    case Add => r == x + y
    case Sub => r + y == x
    case Mul => r == x * y
    case Div => y != 0.0 && r * y == x
  }

  /** v is the sum, difference, product or quotient of a and b: up to the width of an
      integral result type, and otherwise as numbers. Differences and real quotients
      are what added to, or multiplied by, b gives a. */
  ghost predicate Operated(op: Op, a: Value, b: Value, v: Value) {
    && CommonType(v.Ty(), a.Ty(), b.Ty())
    && match v
       case Whole(t, n) =>
         && a.Whole? && b.Whole? && t !in {TFloat, TDouble} && InRange(n, t)
         && WholeOp(op, a.n, b.n, n, t)
       case Fraction(t, r) =>
         t in {TFloat, TDouble} && exists x, y ::
           IsNumber(a, x) && IsNumber(b, y) && RealOp(op, x, y, r)
       case Symbol(_) => false
  }


  lemma CongruentInRange(x: int, y: int, t: Type)
    requires InRange(x, t) && InRange(y, t) && Congruent(x, y, t)
    ensures x == y
  {
  }

  lemma CongruentMeans(x: int, y: int, t: Type) returns (k: int)
    requires Congruent(x, y, t)
    ensures x == y + k * Modulus(t)
  {
    k := (x - y) / Modulus(t);
  }

  lemma Multiple32(k: int)
    ensures (k * 0x1_0000_0000) % 0x1_0000_0000 == 0
  {
  }

  lemma Multiple64(k: int)
    ensures (k * 0x1_0000_0000_0000_0000) % 0x1_0000_0000_0000_0000 == 0
  {
  }

  lemma MultipleCongruent(x: int, y: int, k: int, t: Type)
    requires x - y == k * Modulus(t)
    ensures Congruent(x, y, t)
  {
    Multiple32(k);
    Multiple64(k);
    assert k * Modulus(t) == k * 0x1_0000_0000 || k * Modulus(t) == k * 0x1_0000_0000_0000_0000;
  }

  lemma FitConverts(n: int, t: Type)
    requires t.Integral()
    ensures InRange(Fit(n, t), t) && Congruent(Fit(n, t), n, t)
  {
    var x := n - Lowest(t);
    var k := x / Modulus(t);
    assert Fit(n, t) == x % Modulus(t) + Lowest(t);
    assert Fit(n, t) == n + (-k) * Modulus(t);
    MultipleCongruent(Fit(n, t), n, -k, t);
  }

  lemma ProductsCongruent(x: int, y: int, a: int, b: int, t: Type)
    requires Congruent(x, a, t) && Congruent(y, b, t)
    ensures Congruent(x * y, a * b, t)
  {
    var m := Modulus(t);
    var j := CongruentMeans(x, a, t);
    var k := CongruentMeans(y, b, t);
    assert x * y == a * b + (a * k + j * b + j * m * k) * m by {
      assert x * y == (a + j * m) * (b + k * m) == a * b + a * (k * m) + (j * m) * b + (j * m) * (k * m);
      assert a * (k * m) == (a * k) * m && (j * m) * b == (j * b) * m && (j * m) * (k * m) == (j * m * k) * m;
    }
    MultipleCongruent(x * y, a * b, a * k + j * b + j * m * k, t);
  }

  lemma AbsProduct(x: int, y: int)
    ensures Abs(x * y) == Abs(x) * Abs(y)
  {
    if x < 0 {
      assert x * y == -(Abs(x) * y);
    }
    if y < 0 {
      assert Abs(x) * y == -(Abs(x) * Abs(y));
    }
    assert Abs(x) * Abs(y) >= 0;
  }

  lemma Larger(x: nat, y: nat, z: nat)
    requires x <= y
    ensures x * z <= y * z
  {
  }

  ghost predicate IsQuotient(q: int, a: int, b: int) { 0 <= q && q * b <= a < q * b + b && (q > 0 ==> a > 0) }

  lemma DivBounds(a: nat, b: nat)
    requires b > 0
    ensures IsQuotient(a / b, a, b)
  {
  }

  lemma SignedQuotient(q: int, s: int, a: int, b: int)
    requires b != 0 && IsQuotient(q, Abs(a), Abs(b))
    requires s == if a >= 0 <==> b > 0 then q else -q
    ensures Truncates(s, a, b)
  {
    AbsProduct(s, b);
  }

  lemma TruncDivTruncates(a: int, b: int, s: int)
    requires b != 0 && s == TruncDiv(a, b)
    ensures Truncates(s, a, b)
  {
    DivBounds(Abs(a), Abs(b));
    SignedQuotient(Abs(a) / Abs(b), s, a, b);
  }

  lemma QuotientOnce(p: nat, q: nat, a: nat, b: nat)
    requires p * b <= a < p * b + b && q * b <= a < q * b + b
    ensures p == q
  {
    if p < q {
      Larger(p + 1, q, b);
    } else if q < p {
      Larger(q + 1, p, b);
    }
  }

  /** A number has one quotient that truncates. */
  lemma TruncatesOnce(p: int, q: int, a: int, b: int)
    requires Truncates(p, a, b) && Truncates(q, a, b)
    ensures p == q
  {
    AbsProduct(p, b);
    AbsProduct(q, b);
    QuotientOnce(Abs(p), Abs(q), Abs(a), Abs(b));
  }

  lemma CommonIsResult(a: Type, b: Type, t: Type)
    requires a != TSymbol && b != TSymbol
    ensures CommonType(t, a, b) <==> t == ResultType(a, b)
  {
  }

  lemma WholeOnce(op: Op, a: Value, b: Value, t: Type, n: int)
    requires a.Whole? && b.Whole? && t.Integral() && (op == Div ==> Fit(b.n, t) != 0)
    ensures Fit(Whole2(op, Fit(a.n, t), Fit(b.n, t)), t) == n <==> InRange(n, t) && WholeOp(op, a.n, b.n, n, t)
  {
    var x, y := Fit(a.n, t), Fit(b.n, t);
    FitConverts(a.n, t);
    FitConverts(b.n, t);
    if op == Div {
      DivOnce(a.n, b.n, t, n);
    } else {
      FitOnce(n, Whole2(op, x, y), t);
      SameClass(op, x, y, a.n, b.n, n, t);
    }
  }
  /** Dividing converted operands. */
  lemma DivOnce(a: int, b: int, t: Type, n: int)
    requires t.Integral() && Fit(b, t) != 0
    ensures Fit(TruncDiv(Fit(a, t), Fit(b, t)), t) == n
        <==> InRange(n, t) && exists x, y, q :: Divides(x, y, q, a, b, t) && Congruent(n, q, t)
  {
    var x, y := Fit(a, t), Fit(b, t);
    var q := TruncDiv(x, y);
    FitConverts(a, t);
    FitConverts(b, t);
    FitConverts(q, t);
    TruncDivTruncates(x, y, q);
    assert Divides(x, y, q, a, b, t);
    forall x', y', q' | InRange(n, t) && Divides(x', y', q', a, b, t) && Congruent(n, q', t) ensures Fit(q, t) == n {
      SameConverted(x, x', a, t);
      SameConverted(y, y', b, t);
      TruncatesOnce(q, q', x, y);
      SameConverted(n, Fit(q, t), q, t);
    }
  }

  lemma SumsCongruent(x: int, y: int, a: int, b: int, s: int, t: Type)
    requires Congruent(x, a, t) && Congruent(y, b, t)
    ensures Congruent(x + s * y, a + s * b, t)
  {
    var j := CongruentMeans(x, a, t);
    var k := CongruentMeans(y, b, t);
    assert s * y == s * b + (s * k) * Modulus(t) by {
      assert s * (b + k * Modulus(t)) == s * b + (s * k) * Modulus(t);
    }
    MultipleCongruent(x + s * y, a + s * b, j + s * k, t);
  }

  lemma SameAs(n: int, x: int, y: int, t: Type)
    requires Congruent(x, y, t)
    ensures Congruent(n, x, t) <==> Congruent(n, y, t)
  {
    var k := CongruentMeans(x, y, t);
    if Congruent(n, x, t) {
      var j := CongruentMeans(n, x, t);
      MultipleCongruent(n, y, j + k, t);
    }
    if Congruent(n, y, t) {
      var j := CongruentMeans(n, y, t);
      MultipleCongruent(n, x, j - k, t);
    }
  }

  lemma SameConverted(x: int, y: int, a: int, t: Type)
    requires InRange(x, t) && InRange(y, t) && Congruent(x, a, t) && Congruent(y, a, t)
    ensures x == y
  {
    var j := CongruentMeans(x, a, t);
    var k := CongruentMeans(y, a, t);
    assert (j - k) * Modulus(t) == x - y;
  }

  lemma FitOnce(n: int, m: int, t: Type)
    requires t.Integral()
    ensures Fit(m, t) == n <==> InRange(n, t) && Congruent(n, m, t)
  {
    FitConverts(m, t);
    if InRange(n, t) && Congruent(n, m, t) {
      SameConverted(n, Fit(m, t), m, t);
    }
  }

  lemma SameClass(op: Op, x: int, y: int, a: int, b: int, n: int, t: Type)
    requires op != Div && Congruent(x, a, t) && Congruent(y, b, t)
    ensures Congruent(n, Whole2(op, x, y), t) <==> WholeOp(op, a, b, n, t)
  {
    match op
    case Add =>
      SumsCongruent(x, y, a, b, 1, t);
      SameAs(n, x + y, a + b, t);
    case Sub =>
      SumsCongruent(x, y, a, b, -1, t);
      SameAs(n, x - y, a - b, t);
      assert n + b - a == n - (a - b);
    case Mul =>
      ProductsCongruent(x, y, a, b, t);
      SameAs(n, x * y, a * b, t);
  }

  lemma NoDivisor(a: int, b: int, n: int, t: Type)
    requires WholeOp(Div, a, b, n, t)
    ensures b != 0
  {
    var x, y, q :| Divides(x, y, q, a, b, t) && Congruent(n, q, t);
    if b == 0 {
      CongruentInRange(y, 0, t);
    }
  }

  lemma WholeComputes(op: Op, a: Value, b: Value, v: Value)
    requires a.Valid() && b.Valid() && a.Whole? && b.Whole? && ResultType(a.ty, b.ty) == v.Ty() && v.Whole?
    ensures Apply2(op, a, b) == Some(v) <==> Operated(op, a, b, v)
  {
    CommonIsResult(a.ty, b.ty, v.ty);
    if op == Div && b.n == 0 {
      if WholeOp(op, a.n, b.n, v.n, v.ty) {
        NoDivisor(a.n, b.n, v.n, v.ty);
      }
    } else {
      if op == Div {
        DivisorStaysNonzero(a, b);
      }
      WholeOnce(op, a, b, v.ty, v.n);
    }
  }

  lemma RealQuotient(r: real, y: real)
    requires y != 0.0
    ensures (r * y) / y == r
  {
  }

  lemma RealOnce(op: Op, x: real, y: real, r: real)
    ensures RealOp(op, x, y, r) <==> !(op == Div && y == 0.0) && Real2(op, x, y) == r
  {
    if op == Div && y != 0.0 {
      RealQuotient(r, y);
      assert x / y * y == x;
    }
  }

  lemma FractionComputes(op: Op, a: Value, b: Value, v: Value)
    requires a.Valid() && b.Valid() && !a.Symbol? && !b.Symbol? && ResultType(a.Ty(), b.Ty()) == v.Ty() && v.Fraction?
    requires v.ty == TFloat || v.ty == TDouble
    ensures Apply2(op, a, b) == Some(v) <==> Operated(op, a, b, v)
  {
    CommonIsResult(a.Ty(), b.Ty(), v.ty);
    var x, y := AsReal(a), AsReal(b);
    RealOnce(op, x, y, v.r);
    assert IsNumber(a, x) && IsNumber(b, y) && (EqZero(b) <==> y == 0.0);
    assert forall x', y' :: IsNumber(a, x') && IsNumber(b, y') ==> x' == x && y' == y;
    assert Operated(op, a, b, v) <==> RealOp(op, x, y, v.r);
  }

  /** An operator gives the one value that its operands add up to, differ by, and so on;
      and an error when there is none: for a symbol, and for a divisor of value zero. */
  lemma Computed(op: Op, a: Value, b: Value, v: Value)
    requires a.Valid() && b.Valid()
    ensures Apply2(op, a, b) == Some(v) <==> Operated(op, a, b, v)
  {
    if !a.Symbol? && !b.Symbol? {
      CommonIsResult(a.Ty(), b.Ty(), v.Ty());
      if v.Ty() == ResultType(a.Ty(), b.Ty()) {
        if v.Whole? && a.Whole? && b.Whole? {
          WholeComputes(op, a, b, v);
        } else if v.Fraction? && (v.ty == TFloat || v.ty == TDouble) {
          FractionComputes(op, a, b, v);
        }
      }
    }
  }

  /** v is -a: in a type that holds it, as near to the operand's as the integral types go,
      up to 64 bits, and up to 32 bits for an address. */
  ghost predicate Negated(a: Value, v: Value) {
    match a
    case Whole(t, n) =>
      && v.Whole? && InRange(v.n, v.ty)
      && (if t == TInt || t == TUInt then
            v.n + n == 0 && v.ty == (if InRange(-n, TInt) then TInt else if InRange(-n, TUInt) then TUInt else TSQWord)
          else
            Congruent(v.n + n, 0, v.ty) && v.ty == if t == TAddr then TAddr else TSQWord)
    case Fraction(t, r) => v.Fraction? && v.ty == t && v.r + r == 0.0
    case Symbol(_) => false
  }

  lemma NegateWraps(a: Value, t: Type, v: Value)
    requires a.Valid() && a.Whole? && a.ty in {TAddr, TQWord, TSQWord} && t == if a.ty == TAddr then TAddr else TSQWord
    requires v.Whole? && v.ty == t
    ensures Whole(t, Fit(-a.n, t)) == v <==> Negated(a, v)
  {
    FitOnce(v.n, -a.n, t);
    assert v.n + a.n - 0 == v.n - (-a.n);
  }

  lemma NegateWidens(a: Value, v: Value)
    requires a.Valid() && a.Whole? && (a.ty == TInt || a.ty == TUInt)
    ensures Negated(a, v) <==> v.Whole? && v.n == -a.n && v.ty == Negate(a).Ty()
  {
  }

  lemma NegateComputes(a: Value, v: Value)
    requires a.Valid() && !a.Symbol?
    ensures Negate(a) == v <==> Negated(a, v)
  {
    match a
    case Fraction(_, _) =>
    case Whole(ty, _) =>
      if ty == TInt || ty == TUInt {
        NegateExact(a);
        NegateWidens(a, v);
      } else {
        var t := if ty == TAddr then TAddr else TSQWord;
        assert Negate(a) == Whole(t, Fit(-a.n, t));
        if v.Whole? && v.ty == t {
          NegateWraps(a, t, v);
        }
      }
  }
}
