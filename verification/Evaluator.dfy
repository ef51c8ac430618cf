/** The expression evaluator (lab2/eval.c): a recursive-descent evaluator with
    one token of lookahead, against a grammar with a separate meaning. */
module Evaluator {

  import opened Options
  import opened Arithmetic

  // ---- trees and their meaning ----

  datatype Tree =
    | Ident(name: string)
    | Const(text: string)
    | Neg(arg: Tree)
    | Bin(op: Op, left: Tree, right: Tree)

  /** Given meanings of identifiers and literals; None is an error. */
  datatype Env = Env(ident: string -> Option<Value>, literal: string -> Option<Value>) {
    ghost predicate Valid() {
      && (forall s :: ident(s).Some? ==> ident(s).value.Valid())
      && (forall s :: literal(s).Some? ==> literal(s).value.Valid())
    }
  }

  ghost function Meaning(e: Env, t: Tree): (v: Option<Value>)
    requires e.Valid()
    ensures v.Some? ==> v.value.Valid()
  {
    match t
    case Ident(s) => e.ident(s)
    case Const(s) => e.literal(s)
    case Neg(x) =>
      var a := Meaning(e, x);
      if a.None? || a.value.Symbol? then None else Some(Negate(a.value))
    case Bin(op, l, r) =>
      var a, b := Meaning(e, l), Meaning(e, r);
      if a.None? || b.None? then None else Apply2(op, a.value, b.value)
  }

  /** The value of a tree, by what the operators compute: for a difference, a value that
      added to the value of the right operand gives the value of the left one. */
  ghost predicate Computes(e: Env, t: Tree, v: Value) {
    match t
    case Ident(s) => e.ident(s) == Some(v)
    case Const(s) => e.literal(s) == Some(v)
    case Neg(x) => exists a :: Computes(e, x, a) && Negated(a, v)
    case Bin(op, l, r) => exists a, b :: Computes(e, l, a) && Computes(e, r, b) && Operated(op, a, b, v)
  }

  /** A tree has the meaning that it computes, and none if it computes nothing. */
  lemma {:induction false} MeaningComputes(e: Env, t: Tree, v: Value)
    requires e.Valid()
    ensures Meaning(e, t) == Some(v) <==> Computes(e, t, v)
    decreases t
  {
    match t
    case Ident(_) =>
    case Const(_) =>
    case Neg(x) =>
      forall a ensures Meaning(e, x) == Some(a) <==> Computes(e, x, a) {
        MeaningComputes(e, x, a);
      }
      forall a | Computes(e, x, a) && a.Valid() && !a.Symbol? ensures Negate(a) == v <==> Negated(a, v) {
        NegateComputes(a, v);
      }
    case Bin(op, l, r) =>
      forall a ensures Meaning(e, l) == Some(a) <==> Computes(e, l, a) {
        MeaningComputes(e, l, a);
      }
      forall b ensures Meaning(e, r) == Some(b) <==> Computes(e, r, b) {
        MeaningComputes(e, r, b);
      }
      forall a, b | Computes(e, l, a) && Computes(e, r, b) && a.Valid() && b.Valid()
        ensures Apply2(op, a, b) == Some(v) <==> Operated(op, a, b, v)
      {
        Computed(op, a, b, v);
      }
  }

  // ---- grammar over any token source ----

  datatype Kind = KIdent | KConst | KPlus | KMinus | KMult | KDiv | KOpen | KClose | KEof | KInvalid

  /** A token, its text and the position after it. */
  datatype Token = Token(kind: Kind, text: string, end: nat)

  type Source = nat -> Token

  ghost predicate Advances(src: Source, n: nat) {
    forall q: nat :: q <= n ==> q <= src(q).end <= n && (src(q).kind != KEof ==> q < src(q).end)
  }

  datatype Parse = Fail | Got(tree: Tree, end: nat)

  ghost function ParseFactor(src: Source, n: nat, q: nat): (r: Parse)
    requires Advances(src, n) && q <= n
    ensures r.Got? ==> q < r.end <= n
    decreases n - q, 0
  {
    var t := src(q);
    match t.kind
    case KOpen =>
      (match ParseExpr(src, n, t.end)
       case Fail => Fail
       case Got(x, end) => if src(end).kind == KClose then Got(x, src(end).end) else Fail)
    case KMinus =>
      (match ParseFactor(src, n, t.end)
       case Fail => Fail
       case Got(x, end) => Got(Neg(x), end))
    case KIdent => Got(Ident(t.text), t.end)
    case KConst => Got(Const(t.text), t.end)
    case _ => Fail
  }

  ghost function ParseTerm(src: Source, n: nat, q: nat): (r: Parse)
    requires Advances(src, n) && q <= n
    ensures r.Got? ==> q < r.end <= n
    decreases n - q, 1
  {
    match ParseFactor(src, n, q)
    case Fail => Fail
    case Got(l, end) =>
      var t := src(end);
      if t.kind == KMult || t.kind == KDiv then
        match ParseTerm(src, n, t.end)
        case Fail => Fail
        case Got(r, end') => Got(Bin(if t.kind == KMult then Mul else Div, l, r), end')
      else Got(l, end)
  }

  ghost function ParseExpr(src: Source, n: nat, q: nat): (r: Parse)
    requires Advances(src, n) && q <= n
    ensures r.Got? ==> q < r.end <= n
    decreases n - q, 2
  {
    match ParseTerm(src, n, q)
    case Fail => Fail
    case Got(l, end) =>
      var t := src(end);
      if t.kind == KPlus || t.kind == KMinus then
        match ParseExpr(src, n, t.end)
        case Fail => Fail
        case Got(r, end') => Got(Bin(if t.kind == KPlus then Add else Sub, l, r), end')
      else Got(l, end)
  }

  ghost function ParseAt(src: Source, n: nat, q: nat, level: nat): (r: Parse)
    requires Advances(src, n) && q <= n && level <= 2
  {
    if level == 0 then ParseFactor(src, n, q)
    else if level == 1 then ParseTerm(src, n, q)
    else ParseExpr(src, n, q)
  }

  /** The operator that a token stands for between operands of a level. */
  function OpOf(k: Kind, level: nat): Option<Op> {
    if level == 2 then (if k == KPlus then Some(Add) else if k == KMinus then Some(Sub) else None)
    else if k == KMult then Some(Mul) else if k == KDiv then Some(Div) else None
  }

  // The rules of the grammar, one lemma each.

  lemma JoinRule(src: Source, n: nat, q: nat, level: nat, op: Op, l: Tree, m: nat, r: Tree, end: nat)
    requires Advances(src, n) && q <= n && 1 <= level <= 2
    requires ParseAt(src, n, q, level - 1) == Got(l, m) && m <= n && OpOf(src(m).kind, level) == Some(op)
    requires ParseAt(src, n, src(m).end, level) == Got(r, end)
    ensures ParseAt(src, n, q, level) == Got(Bin(op, l, r), end)
  {
  }

  lemma LastRule(src: Source, n: nat, q: nat, level: nat, t: Tree, end: nat)
    requires Advances(src, n) && q <= n && 1 <= level <= 2
    requires ParseAt(src, n, q, level - 1) == Got(t, end) && end <= n && OpOf(src(end).kind, level) == None
    ensures ParseAt(src, n, q, level) == Got(t, end)
  {
  }

  // ---- the lexer ----

  function CharKind(c: char): Kind {
    if 'a' <= c <= 'z' || 'A' <= c <= 'Z' || c == '_' || c == '$' then KIdent
    else if '0' <= c <= '9' || c == '.' then KConst
    else if c == '+' then KPlus
    else if c == '-' then KMinus
    else if c == '*' then KMult
    else if c == '/' then KDiv
    else if c == '(' then KOpen
    else if c == ')' then KClose
    else KInvalid
  }

  predicate IsBlank(c: char) { c == ' ' || c == '\t' }

  function Lower(c: char): char {
    if 'A' <= c <= 'Z' then (c as int + 32) as char else c
  }

  function SkipBlanks(s: string, q: nat): (r: nat)
    requires q <= |s|
    ensures q <= r <= |s|
    decreases |s| - q
  {
    if q < |s| && IsBlank(s[q]) then SkipBlanks(s, q + 1) else q
  }

  function IdentEnd(s: string, q: nat): (r: nat)
    requires q <= |s|
    ensures q <= r <= |s|
    decreases |s| - q
  {
    if q < |s| && (CharKind(s[q]) == KIdent || CharKind(s[q]) == KConst) then IdentEnd(s, q + 1) else q
  }

  /** The characters that may continue a numeric literal. */
  predicate Continues(c: char, last: char, hex: bool) {
    || CharKind(c) == KConst
    || (c == '-' && last == 'e')
    || (c == '+' && last == 'e')
    || Lower(c) == 'e'
    || Lower(c) == 'x'
    || ('a' <= Lower(c) <= 'f' && hex)
  }

  function ConstEnd(s: string, q: nat, last: char, hex: bool): (r: nat)
    requires q <= |s|
    ensures q <= r <= |s|
    decreases |s| - q
  {
    if q < |s| && Continues(s[q], last, hex) then
      ConstEnd(s, q + 1, Lower(s[q]), hex || s[q] == 'x' || s[q] == 'X')
    else q
  }

  function Lex(s: string, q0: nat): (t: Token)
    requires q0 <= |s|
    ensures q0 <= t.end <= |s| && (t.kind != KEof ==> q0 < t.end)
  {
    var q := SkipBlanks(s, q0);
    if q == |s| then Token(KEof, "", q)
    else
      var k := CharKind(s[q]);
      var end := if k == KIdent then IdentEnd(s, q + 1)
                 else if k == KConst then ConstEnd(s, q + 1, 0 as char, false)
                 else q + 1;
      Token(k, s[q..end], end)
  }

  function CharSource(s: string): Source {
    (q: nat) => if q <= |s| then Lex(s, q) else Token(KEof, "", q)
  }

  lemma CharAdvances(s: string)
    ensures Advances(CharSource(s), |s|)
  {
  }

  /** Only characters that begin tokens, and blanks. */
  ghost predicate Clean(s: string) {
    forall k :: 0 <= k < |s| ==> IsBlank(s[k]) || CharKind(s[k]) != KInvalid
  }

  lemma {:induction false} SkipsToToken(s: string, q: nat)
    requires q <= |s|
    ensures SkipBlanks(s, q) < |s| ==> !IsBlank(s[SkipBlanks(s, q)])
    decreases |s| - q
  {
    if q < |s| && IsBlank(s[q]) {
      SkipsToToken(s, q + 1);
    }
  }

  lemma CleanLex(s: string, q: nat)
    requires Clean(s) && q <= |s|
    ensures Lex(s, q).kind != KInvalid
  {
    SkipsToToken(s, q);
  }

  // ---- evaluating while parsing ----

  datatype Error = NoErr | UParen | NoTerm | Div0 | BadConst | BadExpr | UndefVar

  /** What an evaluation reports, a value or an error, and where it stopped:
      behind the last token it used. */
  datatype Eval = Good(v: Value, end: nat) | Bad(err: Error, end: nat)

  /** An operator on the first operand and what became of the rest. A symbol as
      first operand hides an error of the rest, except for a division. */
  ghost function Joined(op: Op, a: Value, r: Eval): (r': Eval)
    requires a.Valid() && (r.Good? ==> r.v.Valid()) && (r.Bad? ==> r.err != NoErr)
    ensures r'.end == r.end && (r'.Bad? ==> r'.err != NoErr)
    ensures r'.Good? <==> r.Good? && Apply2(op, a, r.v).Some?
    ensures r'.Good? ==> r'.v.Valid() && Apply2(op, a, r.v) == Some(r'.v)
  {
    match r
    case Bad(err, end) => Bad(if op != Div && a.Symbol? then BadExpr else err, end)
    case Good(b, end) =>
      if op == Div && !b.Symbol? && EqZero(b) then Bad(Div0, end)
      else if a.Symbol? || b.Symbol? then Bad(BadExpr, end)
      else Good(Arith(op, a, b), end)
  }

  /** A factor (level 0), a term (1) or an expression (2) from position q on. */
  ghost function EvalAt(e: Env, src: Source, n: nat, q: nat, level: nat): (r: Eval)
    requires e.Valid() && Advances(src, n) && q <= n && level <= 2
    ensures q <= r.end <= n
    ensures if r.Good? then q < r.end && r.v.Valid() else r.err != NoErr
    decreases n - q, level
  {
    if level == 0 then
      match src(q).kind
      case KOpen =>
        var r := EvalAt(e, src, n, src(q).end, 2);
        if r.Bad? then r
        else if src(r.end).kind == KClose then Good(r.v, src(r.end).end)
        else Bad(UParen, r.end)
      case KMinus =>
        var r := EvalAt(e, src, n, src(q).end, 0);
        if r.Bad? then r else if r.v.Symbol? then Bad(BadExpr, r.end) else Good(Negate(r.v), r.end)
      case KIdent => Named(e.ident(src(q).text), UndefVar, src(q).end)
      case KConst => Named(e.literal(src(q).text), BadConst, src(q).end)
      case _ => Bad(NoTerm, q)
    else
      var r := EvalAt(e, src, n, q, level - 1);
      if r.Bad? then r
      else
        var op := OpOf(src(r.end).kind, level);
        if op.None? then r else Joined(op.value, r.v, EvalAt(e, src, n, src(r.end).end, level))
  }

  function Named(v: Option<Value>, err: Error, end: nat): Eval {
    if v.Some? then Good(v.value, end) else Bad(err, end)
  }

  /** An evaluation agrees with a parse: it is good exactly when the text parsed
      and its tree has a meaning, which then is the value; and it ends there. */
  ghost predicate Means(e: Env, p: Parse, r: Eval)
    requires e.Valid()
  {
    && (r.Good? <==> p.Got? && Meaning(e, p.tree).Some?)
    && (r.Good? ==> Meaning(e, p.tree) == Some(r.v) && p.end == r.end)
  }

  lemma {:induction false} BinMeaning(e: Env, op: Op, l: Tree, r: Tree)
    requires e.Valid() && Meaning(e, l).Some?
    ensures Meaning(e, Bin(op, l, r))
         == if Meaning(e, r).None? then None else Apply2(op, Meaning(e, l).value, Meaning(e, r).value)
  {
  }

  lemma RestFails(src: Source, n: nat, q: nat, level: nat, op: Op, l: Tree, m: nat)
    requires Advances(src, n) && q <= n && 1 <= level <= 2 && m <= n && OpOf(src(m).kind, level) == Some(op)
    requires ParseAt(src, n, q, level - 1) == Got(l, m) && ParseAt(src, n, src(m).end, level) == Fail
    ensures ParseAt(src, n, q, level) == Fail
  {
  }

  /** An operator between a first operand and the rest, whatever becomes of the rest. */
  lemma {:induction false} FirstAndRest(e: Env, src: Source, n: nat, q: nat, level: nat, v: Value, m: nat, op: Op,
                                        r: Eval)
    requires e.Valid() && Advances(src, n) && q <= n && 1 <= level <= 2 && v.Valid()
    requires Means(e, ParseAt(src, n, q, level - 1), Good(v, m)) && m <= n && OpOf(src(m).kind, level) == Some(op)
    requires (r.Good? ==> r.v.Valid()) && (r.Bad? ==> r.err != NoErr)
    requires Means(e, ParseAt(src, n, src(m).end, level), r)
    ensures Means(e, ParseAt(src, n, q, level), Joined(op, v, r))
  {
    var left, rest := ParseAt(src, n, q, level - 1), ParseAt(src, n, src(m).end, level);
    if rest.Got? {
      JoinRule(src, n, q, level, op, left.tree, m, rest.tree, rest.end);
      BinMeaning(e, op, left.tree, rest.tree);
    } else {
      RestFails(src, n, q, level, op, left.tree, m);
    }
  }

  lemma FirstFails(e: Env, src: Source, n: nat, q: nat, level: nat, r: Eval)
    requires e.Valid() && Advances(src, n) && q <= n && 1 <= level <= 2 && r.Bad?
    requires Means(e, ParseAt(src, n, q, level - 1), r)
    ensures Means(e, ParseAt(src, n, q, level), r)
  {
  }

  lemma FirstIsAll(e: Env, src: Source, n: nat, q: nat, level: nat, r: Eval)
    requires e.Valid() && Advances(src, n) && q <= n && 1 <= level <= 2 && r.Good? && r.end <= n
    requires Means(e, ParseAt(src, n, q, level - 1), r) && OpOf(src(r.end).kind, level) == None
    ensures Means(e, ParseAt(src, n, q, level), r)
  {
  }

  /** Evaluating while parsing is parsing and then taking the meaning. */
  lemma {:induction false} EvalMeans(e: Env, src: Source, n: nat, q: nat, level: nat)
    requires e.Valid() && Advances(src, n) && q <= n && level <= 2
    ensures Means(e, ParseAt(src, n, q, level), EvalAt(e, src, n, q, level))
    decreases n - q, level, 1
  {
    if level == 0 {
      FactorMeans(e, src, n, q);
    } else {
      EvalMeans(e, src, n, q, level - 1);
      var r := EvalAt(e, src, n, q, level - 1);
      if r.Bad? {
        FirstFails(e, src, n, q, level, r);
      } else if OpOf(src(r.end).kind, level).None? {
        FirstIsAll(e, src, n, q, level, r);
      } else {
        EvalMeans(e, src, n, src(r.end).end, level);
        FirstAndRest(e, src, n, q, level, r.v, r.end, OpOf(src(r.end).kind, level).value,
                     EvalAt(e, src, n, src(r.end).end, level));
      }
    }
  }

  lemma {:induction false} FactorMeans(e: Env, src: Source, n: nat, q: nat)
    requires e.Valid() && Advances(src, n) && q <= n
    ensures Means(e, ParseAt(src, n, q, 0), EvalAt(e, src, n, q, 0))
    decreases n - q, 0, 0
  {
    if src(q).kind == KOpen {
      EvalMeans(e, src, n, src(q).end, 2);
    } else if src(q).kind == KMinus {
      EvalMeans(e, src, n, src(q).end, 0);
    }
  }

  /** An evaluation reports the value that the parsed tree computes, or there is none. */
  ghost predicate Evaluates(e: Env, p: Parse, r: Eval) {
    if r.Good? then p.Got? && p.end == r.end && Computes(e, p.tree, r.v)
    else p.Got? ==> forall v :: !Computes(e, p.tree, v)
  }

  lemma {:induction false} EvalComputes(e: Env, src: Source, n: nat, q: nat, level: nat)
    requires e.Valid() && Advances(src, n) && q <= n && level <= 2
    ensures Evaluates(e, ParseAt(src, n, q, level), EvalAt(e, src, n, q, level))
  {
    var p := ParseAt(src, n, q, level);
    EvalMeans(e, src, n, q, level);
    if p.Got? {
      forall v ensures Meaning(e, p.tree) == Some(v) <==> Computes(e, p.tree, v) {
        MeaningComputes(e, p.tree, v);
      }
    }
  }

  /** What an error code says about the place where the evaluation stopped. */
  ghost predicate Located(e: Env, src: Source, n: nat, r: Eval)
    requires e.Valid() && Advances(src, n) && r.end <= n
  {
    r.Bad? ==>
      match r.err
      case NoTerm => src(r.end).kind !in {KIdent, KConst, KOpen, KMinus}
      case UParen => src(r.end).kind != KClose
      case UndefVar => exists p: nat :: p <= n && Ends(src, p, KIdent, r.end) && e.ident(src(p).text).None?
      case BadConst => exists p: nat :: p <= n && Ends(src, p, KConst, r.end) && e.literal(src(p).text).None?
      case Div0 => exists p: nat :: p <= n && IsZero(EvalAt(e, src, n, p, 1), r.end)
      case _ => true
  }

  /** A token of this kind ends at this position. */
  predicate Ends(src: Source, p: nat, k: Kind, end: nat) {
    src(p).kind == k && src(p).end == end
  }

  predicate IsZero(r: Eval, end: nat) {
    r.Good? && r.end == end && !r.v.Symbol? && EqZero(r.v)
  }

  lemma {:induction false} JoinedLocated(e: Env, src: Source, n: nat, q: nat, level: nat, op: Op, v: Value)
    requires e.Valid() && Advances(src, n) && q <= n && 1 <= level <= 2 && v.Valid() && (op == Div ==> level == 1)
    requires Located(e, src, n, EvalAt(e, src, n, q, level))
    ensures Located(e, src, n, Joined(op, v, EvalAt(e, src, n, q, level)))
  {
    var r := EvalAt(e, src, n, q, level);
    if Joined(op, v, r) == Bad(Div0, r.end) && r.Good? {
      assert IsZero(EvalAt(e, src, n, q, 1), r.end);
    }
  }

  /** Every reported error is where and what it says: a missing operand, a missing
      parenthesis, a name or literal without a value, or a divisor of value zero. */
  lemma {:induction false} ErrorLocated(e: Env, src: Source, n: nat, q: nat, level: nat)
    requires e.Valid() && Advances(src, n) && q <= n && level <= 2
    ensures Located(e, src, n, EvalAt(e, src, n, q, level))
    decreases n - q, level, 1
  {
    if level == 0 {
      FactorLocated(e, src, n, q);
    } else {
      ErrorLocated(e, src, n, q, level - 1);
      var r := EvalAt(e, src, n, q, level - 1);
      if r.Good? && OpOf(src(r.end).kind, level).Some? {
        ErrorLocated(e, src, n, src(r.end).end, level);
        JoinedLocated(e, src, n, src(r.end).end, level, OpOf(src(r.end).kind, level).value, r.v);
      }
    }
  }

  lemma {:induction false} FactorLocated(e: Env, src: Source, n: nat, q: nat)
    requires e.Valid() && Advances(src, n) && q <= n
    ensures Located(e, src, n, EvalAt(e, src, n, q, 0))
    decreases n - q, 0, 0
  {
    match src(q).kind
    case KOpen => ErrorLocated(e, src, n, src(q).end, 2);
    case KMinus => ErrorLocated(e, src, n, src(q).end, 0);
    case KIdent => assert Ends(src, q, KIdent, src(q).end);
    case KConst => assert Ends(src, q, KConst, src(q).end);
    case _ =>
  }

  // ---- the evaluator in place ----

  const ERR_VALUE := Whole(TInt, 0)

  /** eval_state_t and the global eval_error. KInvalid marks an empty peek buffer. */
  class EvalState {
    const s: string
    const env: Env
    var p: nat
    var lastp: nat
    var tokBuf: string
    var peekTok: Kind
    var error: Error

    ghost predicate Valid()
      reads this
    {
      && env.Valid() && Clean(s) && p <= |s|
      && (peekTok != KInvalid ==> lastp <= |s| && Lex(s, lastp) == Token(peekTok, tokBuf, p))
    }

    /** The position after the last token that was used. */
    ghost function Pos(): nat
      reads this
    {
      if peekTok != KInvalid then lastp else p
    }

    constructor (s: string, env: Env)
      requires env.Valid() && Clean(s)
      ensures Valid() && this.s == s && this.env == env
    {
      this.s, this.env := s, env;
      p, lastp, tokBuf, peekTok, error := 0, 0, "", KInvalid, NoErr;
    }

    /** get_next_token. */
    method GetNext() returns (k: Kind)
      requires Valid()
      modifies this`p, this`tokBuf, this`peekTok
      ensures Valid() && peekTok == KInvalid && Token(k, tokBuf, Pos()) == Lex(s, old(Pos()))
    {
      if peekTok != KInvalid {
        k := peekTok;
        peekTok := KInvalid;
        return;
      }
      SkipWhite();
      tokBuf := "";
      if p == |s| {
        return KEof;
      }
      var start := p;
      k := CharKind(s[p]);
      p := p + 1;
      if k == KIdent {
        ScanIdent();
      } else if k == KConst {
        ScanConst();
      }
      tokBuf := s[start..p];
    }

    method SkipWhite()
      requires p <= |s|
      modifies this`p
      ensures p == SkipBlanks(s, old(p))
    {
      while p < |s| && IsBlank(s[p])
        invariant p <= |s| && SkipBlanks(s, p) == SkipBlanks(s, old(p))
      {
        p := p + 1;
      }
    }

    method ScanIdent()
      requires p <= |s|
      modifies this`p
      ensures p == IdentEnd(s, old(p))
    {
      while p < |s| && (CharKind(s[p]) == KIdent || CharKind(s[p]) == KConst)
        invariant p <= |s| && IdentEnd(s, p) == IdentEnd(s, old(p))
      {
        p := p + 1;
      }
    }

    method ScanConst()
      requires p <= |s|
      modifies this`p
      ensures p == ConstEnd(s, old(p), 0 as char, false)
    {
      var last, hex := 0 as char, false;
      while p < |s| && Continues(s[p], last, hex)
        invariant p <= |s| && ConstEnd(s, p, last, hex) == ConstEnd(s, old(p), 0 as char, false)
      {
        last := Lower(s[p]);
        hex := hex || s[p] == 'x' || s[p] == 'X';
        p := p + 1;
      }
    }

    /** peek_next_token. */
    method PeekNext() returns (k: Kind)
      requires Valid()
      modifies this`p, this`lastp, this`tokBuf, this`peekTok
      ensures Valid() && Pos() == old(Pos()) && k == peekTok == Lex(s, Pos()).kind
    {
      CleanLex(s, Pos());
      if peekTok == KInvalid {
        lastp := p;
        var t := GetNext();
        peekTok := t;
      }
      k := peekTok;
    }

    /** f_add, f_sub, f_mult and f_div. */
    method Binary(op: Op, a: Value, b: Value) returns (v: Value)
      requires a.Valid() && b.Valid() && (op == Div && !b.Symbol? ==> !EqZero(b))
      modifies this`error
      ensures v.Valid()
      ensures if a.Symbol? || b.Symbol? then error == BadExpr && v == ERR_VALUE
              else error == old(error) && v == Arith(op, a, b)
    {
      if a.Symbol? || b.Symbol? {
        error := BadExpr;
        return ERR_VALUE;
      }
      v := Arith(op, a, b);
    }

    /** What has been evaluated: a value or an error, up to the last token used. */
    ghost function Result(v: Value): Eval
      reads this
    {
      if error == NoErr then Good(v, Pos()) else Bad(error, Pos())
    }

    ghost function Expected(q: nat, level: nat): Eval
      requires env.Valid() && Advances(CharSource(s), |s|) && q <= |s| && level <= 2
    {
      EvalAt(env, CharSource(s), |s|, q, level)
    }

    /** The result agrees with evaluating from q on; a failure returns err_value. */
    ghost predicate Reports(q: nat, level: nat, v: Value)
      requires env.Valid() && Advances(CharSource(s), |s|) && q <= |s| && level <= 2
      reads this
    {
      Result(v) == Expected(q, level) && (error == NoErr ==> v.Valid()) && (error != NoErr ==> v == ERR_VALUE)
    }

    method Factor() returns (v: Value)
      requires Valid() && error == NoErr && Advances(CharSource(s), |s|)
      modifies this
      ensures Valid() && v.Valid() && Reports(old(Pos()), 0, v)
      decreases |s| - Pos(), 1
    {
      v := ERR_VALUE;
      var k := PeekNext();
      if k == KOpen {
        v := Parens();
      } else if k == KMinus {
        v := Negation();
      } else {
        v := Leaf(k);
      }
    }

    /** The case of an opening parenthesis. */
    method Parens() returns (v: Value)
      requires Valid() && error == NoErr && Advances(CharSource(s), |s|) && Lex(s, Pos()).kind == KOpen
      modifies this
      ensures Valid() && v.Valid() && Reports(old(Pos()), 0, v)
      decreases |s| - Pos(), 0
    {
      var k := GetNext();
      v := Expr();
      if error != NoErr {
        return ERR_VALUE;
      }
      k := PeekNext();
      if k != KClose {
        error := UParen;
        return ERR_VALUE;
      }
      k := GetNext();
    }

    /** The case of a minus sign, and f_neg. */
    method Negation() returns (v: Value)
      requires Valid() && error == NoErr && Advances(CharSource(s), |s|) && Lex(s, Pos()).kind == KMinus
      modifies this
      ensures Valid() && v.Valid() && Reports(old(Pos()), 0, v)
      decreases |s| - Pos(), 0
    {
      var k := GetNext();
      v := Factor();
      if error != NoErr {
        return ERR_VALUE;
      }
      if v.Symbol? {
        error := BadExpr;
        return ERR_VALUE;
      }
      v := Negate(v);
    }

    /** The cases of an identifier, a literal, and no term. */
    method Leaf(k: Kind) returns (v: Value)
      requires Valid() && error == NoErr && Advances(CharSource(s), |s|)
      requires k == Lex(s, Pos()).kind && k != KOpen && k != KMinus
      modifies this
      ensures Valid() && v.Valid() && Reports(old(Pos()), 0, v)
    {
      v := ERR_VALUE;
      if k == KIdent || k == KConst {
        var t := GetNext();
        var x := if k == KIdent then env.ident(tokBuf) else env.literal(tokBuf);
        if x.None? {
          error := if k == KIdent then UndefVar else BadConst;
          return;
        }
        v := x.value;
      } else {
        error := NoTerm;
      }
    }

    method Term() returns (v: Value)
      requires Valid() && error == NoErr && Advances(CharSource(s), |s|)
      modifies this
      ensures Valid() && v.Valid() && Reports(old(Pos()), 1, v)
      decreases |s| - Pos(), 2
    {
      ghost var q := Pos();
      v := Factor();
      if error != NoErr {
        return ERR_VALUE;
      }
      var k := PeekNext();
      if k == KMult {
        v := TimesRest(v, q);
      } else if k == KDiv {
        v := OverRest(v, q);
      }
    }

    /** The case of a multiplication sign behind a first factor. */
    method TimesRest(v0: Value, ghost q: nat) returns (v: Value)
      requires Valid() && error == NoErr && Advances(CharSource(s), |s|) && v0.Valid()
      requires Lex(s, Pos()).kind == KMult && q < Pos() && Reports(q, 0, v0)
      modifies this
      ensures Valid() && v.Valid() && Reports(q, 1, v)
      decreases |s| - Pos(), 0
    {
      var k := GetNext();
      var v1 := Term();
      ghost var r := Result(v1);
      v := Binary(Mul, v0, v1);
      if error != NoErr {
        return ERR_VALUE;
      }
    }

    /** The case of a division sign. */
    method OverRest(v0: Value, ghost q: nat) returns (v: Value)
      requires Valid() && error == NoErr && Advances(CharSource(s), |s|) && v0.Valid()
      requires Lex(s, Pos()).kind == KDiv && q < Pos() && Reports(q, 0, v0)
      modifies this
      ensures Valid() && v.Valid() && Reports(q, 1, v)
      decreases |s| - Pos(), 0
    {
      var k := GetNext();
      var v1 := Term();
      if error != NoErr {
        return ERR_VALUE;
      }
      v := Quotient(v0, v1);
    }

    /** f_eq_zero and f_div. */
    method Quotient(v: Value, v1: Value) returns (r: Value)
      requires v.Valid() && v1.Valid() && error == NoErr
      modifies this`error
      ensures r.Valid() && Result(r) == Joined(Div, v, Good(v1, Pos())) && (error != NoErr ==> r == ERR_VALUE)
      ensures error == NoErr <==> Apply2(Div, v, v1).Some?
    {
      if v1.Symbol? {
        error := BadExpr;
      } else if EqZero(v1) {
        error := Div0;
        return ERR_VALUE;
      }
      r := Binary(Div, v, v1);
    }

    method Expr() returns (v: Value)
      requires Valid() && error == NoErr && Advances(CharSource(s), |s|)
      modifies this
      ensures Valid() && v.Valid() && Reports(old(Pos()), 2, v)
      decreases |s| - Pos(), 3
    {
      ghost var q := Pos();
      v := Term();
      if error != NoErr {
        return ERR_VALUE;
      }
      var k := PeekNext();
      if k == KPlus || k == KMinus {
        v := SumRest(if k == KPlus then Add else Sub, v, q);
      }
    }

    /** The cases of a plus and a minus sign behind a first term. */
    method SumRest(op: Op, v0: Value, ghost q: nat) returns (v: Value)
      requires Valid() && error == NoErr && Advances(CharSource(s), |s|) && v0.Valid()
      requires OpOf(Lex(s, Pos()).kind, 2) == Some(op) && q < Pos() && Reports(q, 1, v0)
      modifies this
      ensures Valid() && v.Valid() && Reports(q, 2, v)
      decreases |s| - Pos(), 0
    {
      var k := GetNext();
      var v1 := Expr();
      ghost var r := Result(v1);
      v := Binary(op, v0, v1);
      if error != NoErr {
        return ERR_VALUE;
      }
    }

    /** eval_expr: there is no error exactly when a prefix of the text is an
        expression that computes a value, which then is returned. In either case endp
        is just behind the last token used, and an error is what and where it says. */
    method EvalExpr() returns (v: Value, endp: nat)
      requires env.Valid() && Clean(s)
      modifies this
      ensures Advances(CharSource(s), |s|)
      ensures var r := EvalAt(env, CharSource(s), |s|, 0, 2);
              && r == (if error == NoErr then Good(v, endp) else Bad(error, endp))
              && (error != NoErr ==> v == ERR_VALUE) && Located(env, CharSource(s), |s|, r)
              && Evaluates(env, ParseExpr(CharSource(s), |s|, 0), r)
    {
      CharAdvances(s);
      error, p, tokBuf, peekTok := NoErr, 0, "", KInvalid;
      v := Expr();
      endp := if peekTok != KInvalid then lastp else p;
      EvalComputes(env, CharSource(s), |s|, 0, 2);
      ErrorLocated(env, CharSource(s), |s|, 0, 2);
    }
  }
}
