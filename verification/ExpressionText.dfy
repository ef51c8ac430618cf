/** What the expression evaluator (lab2/eval.c) reads: the words of its lexer, and a
    grammar over the characters of a text, both said without the lexer and the parser. */
module ExpressionText {

  import opened Options
  import opened Arithmetic
  import opened Evaluator

  // ---- words ----

  predicate Blank(c: char) { c == ' ' || c == '\t' }

  predicate Letter(c: char) { 'a' <= c <= 'z' || 'A' <= c <= 'Z' || c == '_' || c == '$' }

  predicate Digit(c: char) { '0' <= c <= '9' || c == '.' }

  predicate Name(w: string) {
    |w| > 0 && Letter(w[0]) && forall i :: 1 <= i < |w| ==> Letter(w[i]) || Digit(w[i])
  }

  predicate HexMark(c: char) { c == 'x' || c == 'X' }

  predicate Exponent(c: char) { c == 'e' || c == 'E' }

  /** A character of a literal: a sign only behind an e, and the letters of hexadecimal
      digits, but for e, only somewhere behind an x. */
  predicate InLiteral(w: string, i: nat)
    requires 1 <= i < |w|
  {
    || Digit(w[i]) || Exponent(w[i]) || HexMark(w[i])
    || (('a' <= w[i] <= 'f' || 'A' <= w[i] <= 'F') && exists j :: 1 <= j < i && HexMark(w[j]))
    || ((w[i] == '+' || w[i] == '-') && i >= 2 && Exponent(w[i - 1]))
  }

  predicate Literal(w: string) {
    |w| > 0 && Digit(w[0]) && forall i :: 1 <= i < |w| ==> InLiteral(w, i)
  }

  /** Blanks from q to o. */
  predicate Blanks(s: string, q: nat, o: nat) {
    q <= o <= |s| && forall k :: q <= k < o ==> Blank(s[k])
  }

  /** The character c between q, where blanks may come first, and o. */
  predicate Mark(s: string, q: nat, c: char, o: nat) {
    q < o <= |s| && Blanks(s, q, o - 1) && s[o - 1] == c
  }

  /** The word w between q, where blanks may come first, and r. */
  predicate Stands(s: string, q: nat, w: string, r: nat) {
    q + |w| <= r <= |s| && Blanks(s, q, r - |w|) && s[r - |w|..r] == w
  }

  /** A name that the character behind it does not make longer. */
  predicate WholeName(s: string, q: nat, w: string, r: nat) {
    Stands(s, q, w, r) && Name(w) && (r < |s| ==> !Name(w + [s[r]]))
  }

  predicate WholeLiteral(s: string, q: nat, w: string, r: nat) {
    Stands(s, q, w, r) && Literal(w) && (r < |s| ==> !Literal(w + [s[r]]))
  }

  // ---- the lexer finds the words ----

  lemma {:induction false} SkipExact(s: string, q: nat)
    requires q <= |s|
    ensures Blanks(s, q, SkipBlanks(s, q)) && (SkipBlanks(s, q) < |s| ==> !Blank(s[SkipBlanks(s, q)]))
    decreases |s| - q
  {
    if q < |s| && IsBlank(s[q]) {
      SkipExact(s, q + 1);
    }
  }

  lemma {:induction false} SkipTo(s: string, q: nat, k: nat)
    requires Blanks(s, q, k) && k < |s| && !Blank(s[k])
    ensures SkipBlanks(s, q) == k
  {
    SkipExact(s, q);
  }

  lemma {:induction false} NameEnds(s: string, q: nat)
    requires q <= |s|
    ensures var r := IdentEnd(s, q);
            && (forall i :: q <= i < r ==> Letter(s[i]) || Digit(s[i]))
            && (r < |s| ==> !Letter(s[r]) && !Digit(s[r]))
    decreases |s| - q
  {
    if q < |s| && (CharKind(s[q]) == KIdent || CharKind(s[q]) == KConst) {
      NameEnds(s, q + 1);
    }
  }

  /** What a literal read from b on up to q lets follow. */
  predicate Read(s: string, b: nat, q: nat, last: char, hex: bool) {
    && b < q <= |s| && (Exponent(last) <==> q >= b + 2 && Exponent(s[q - 1])) && Lower(last) == last
    && (hex <==> exists j :: b + 1 <= j < q && HexMark(s[j]))
  }

  predicate Follows(s: string, b: nat, i: nat)
    requires b < i < |s|
  {
    InLiteral(s[b..i + 1], i - b)
  }

  lemma FollowsExact(s: string, b: nat, q: nat, last: char, hex: bool)
    requires Read(s, b, q, last, hex) && q < |s|
    ensures Follows(s, b, q) <==> Continues(s[q], last, hex)
    ensures Read(s, b, q + 1, Lower(s[q]), hex || s[q] == 'x' || s[q] == 'X')
  {
    var w := s[b..q + 1];
    assert forall j :: 1 <= j < q - b ==> w[j] == s[b + j];
    assert (exists j :: 1 <= j < q - b && HexMark(w[j])) <==> hex by {
      if hex {
        var j :| b + 1 <= j < q && HexMark(s[j]);
        assert HexMark(w[j - b]);
      }
    }
  }

  lemma {:induction false} LiteralEnds(s: string, b: nat, q: nat, last: char, hex: bool)
    requires Read(s, b, q, last, hex)
    ensures var r := ConstEnd(s, q, last, hex);
            && (forall i :: q <= i < r ==> Follows(s, b, i))
            && (r < |s| ==> !Follows(s, b, r))
    decreases |s| - q
  {
    if q < |s| {
      FollowsExact(s, b, q, last, hex);
      if Continues(s[q], last, hex) {
        LiteralEnds(s, b, q + 1, Lower(s[q]), hex || s[q] == 'x' || s[q] == 'X');
      }
    }
  }

  lemma LiteralPrefix(s: string, b: nat, r: nat)
    requires b < r <= |s|
    ensures Literal(s[b..r]) <==> Digit(s[b]) && forall i :: b < i < r ==> Follows(s, b, i)
  {
    var w := s[b..r];
    forall i | b < i < r ensures Follows(s, b, i) <==> InLiteral(w, i - b) {
      var v := s[b..i + 1];
      assert forall j :: 0 <= j <= i - b ==> v[j] == w[j];
    }
    if Literal(w) {
      forall i | b < i < r ensures Follows(s, b, i) {
        assert InLiteral(w, i - b);
      }
    }
    if forall i :: b < i < r ==> Follows(s, b, i) {
      forall i | 1 <= i < |w| ensures InLiteral(w, i) {
        assert Follows(s, b, b + i);
      }
    }
  }

  /** The kinds of the tokens of one character. */
  function KindOf(c: char): Kind {
    match c
    case '+' => KPlus
    case '-' => KMinus
    case '*' => KMult
    case '/' => KDiv
    case '(' => KOpen
    case ')' => KClose
    case _ => KInvalid
  }

  lemma LexMark(s: string, q: nat, c: char, o: nat)
    requires q <= |s| && KindOf(c) != KInvalid
    ensures Lex(s, q).kind == KindOf(c) && Lex(s, q).end == o <==> Mark(s, q, c, o)
  {
    SkipExact(s, q);
    if Mark(s, q, c, o) {
      SkipTo(s, q, o - 1);
    }
  }

  lemma NamePrefix(s: string, b: nat, r: nat)
    requires b < r <= |s|
    ensures Name(s[b..r]) <==> Letter(s[b]) && forall i :: b < i < r ==> Letter(s[i]) || Digit(s[i])
  {
    var w := s[b..r];
    assert forall i :: b < i < r ==> s[i] == w[i - b];
  }

  lemma {:induction false} NameIsWhole(s: string, b: nat, r: nat)
    requires b < r <= |s| && Letter(s[b])
    ensures IdentEnd(s, b + 1) == r <==> Name(s[b..r]) && (r < |s| ==> !Name(s[b..r] + [s[r]]))
  {
    var end := IdentEnd(s, b + 1);
    NameEnds(s, b + 1);
    NamePrefix(s, b, r);
    assert r <= end ==> Name(s[b..r]);
    assert end < r ==> !Name(s[b..r]);
    if r < |s| && r <= end {
      NameGrows(s, b, r);
    }
  }

  lemma NameGrows(s: string, b: nat, r: nat)
    requires b < r < |s| && Name(s[b..r])
    ensures Name(s[b..r] + [s[r]]) <==> Letter(s[r]) || Digit(s[r])
  {
    var w := s[b..r] + [s[r]];
    assert w[r - b] == s[r] && forall i :: 0 <= i < r - b ==> w[i] == s[b..r][i];
    assert Name(w) <==> forall i :: 1 <= i <= r - b ==> Letter(w[i]) || Digit(w[i]);
  }

  lemma LexName(s: string, q: nat, w: string, r: nat)
    requires q <= |s|
    ensures Lex(s, q) == Token(KIdent, w, r) <==> WholeName(s, q, w, r)
  {
    SkipExact(s, q);
    if Lex(s, q) == Token(KIdent, w, r) {
      NameIsWhole(s, SkipBlanks(s, q), r);
    }
    if WholeName(s, q, w, r) {
      var b := r - |w|;
      assert s[b] == w[0];
      SkipTo(s, q, b);
      NameIsWhole(s, b, r);
    }
  }

  lemma LexLiteral(s: string, q: nat, w: string, r: nat)
    requires q <= |s|
    ensures Lex(s, q) == Token(KConst, w, r) <==> WholeLiteral(s, q, w, r)
  {
    SkipExact(s, q);
    if Lex(s, q) == Token(KConst, w, r) {
      LiteralIsWhole(s, SkipBlanks(s, q), r);
    }
    if WholeLiteral(s, q, w, r) {
      var b := r - |w|;
      assert s[b] == w[0];
      SkipTo(s, q, b);
      LiteralIsWhole(s, b, r);
    }
  }

  /** The literal that is read from b on is the longest one there. */
  lemma {:induction false} LiteralIsWhole(s: string, b: nat, r: nat)
    requires b < r <= |s| && Digit(s[b])
    ensures ConstEnd(s, b + 1, 0 as char, false) == r
        <==> Literal(s[b..r]) && (r < |s| ==> !Literal(s[b..r] + [s[r]]))
  {
    var end := ConstEnd(s, b + 1, 0 as char, false);
    LiteralEnds(s, b, b + 1, 0 as char, false);
    LiteralPrefix(s, b, r);
    assert r <= end ==> Literal(s[b..r]);
    assert end < r ==> !Literal(s[b..r]);
    if r < |s| && r <= end {
      LiteralGrows(s, b, r);
    }
  }

  lemma LiteralGrows(s: string, b: nat, r: nat)
    requires b < r < |s| && Literal(s[b..r])
    ensures Literal(s[b..r] + [s[r]]) <==> Follows(s, b, r)
  {
    LiteralPrefix(s, b, r);
    LiteralPrefix(s, b, r + 1);
    assert s[b..r + 1] == s[b..r] + [s[r]];
  }

  // ---- the grammar, over characters ----

  /** The signs between operands of a level: sums (2) and products (1). */
  predicate IsSign(c: char, op: Op, level: nat) {
    if level == 2 then (c == '+' && op == Add) || (c == '-' && op == Sub)
    else (c == '*' && op == Mul) || (c == '/' && op == Div)
  }

  /** The text from q to r is the tree t, as a factor (0), a term (1) or an expression
      (2). Operators without parentheses group to the right. */
  ghost predicate Writes(s: string, q: nat, t: Tree, level: nat, r: nat)
    requires q <= |s| && level <= 2
    decreases |s| - q, level
  {
    r <= |s| &&
    if level == 0 then
      || (t.Ident? && WholeName(s, q, t.name, r))
      || (t.Const? && WholeLiteral(s, q, t.text, r))
      || (t.Neg? && exists o :: Mark(s, q, '-', o) && Writes(s, o, t.arg, 0, r))
      || (exists o, m :: Mark(s, q, '(', o) && Mark(s, m, ')', r) && Writes(s, o, t, 2, m))
    else
      || Writes(s, q, t, level - 1, r)
      || (t.Bin? && exists c, m, o ::
            && IsSign(c, t.op, level) && q < m && Mark(s, m, c, o)
            && Writes(s, q, t.left, level - 1, m) && Writes(s, o, t.right, level, r))
  }

  /** No operator follows that would continue the tree. */
  ghost predicate Ended(s: string, r: nat, level: nat) {
    (level >= 1 ==> NoSign(s, r, 1)) && (level >= 2 ==> NoSign(s, r, 2))
  }

  ghost predicate NoSign(s: string, r: nat, level: nat) {
    forall c, op, o :: IsSign(c, op, level) ==> !Mark(s, r, c, o)
  }

  lemma SignLexed(s: string, q: nat, level: nat)
    requires q <= |s| && 1 <= level <= 2
    ensures forall op :: OpOf(Lex(s, q).kind, level) == Some(op) ==>
              exists c :: IsSign(c, op, level) && Mark(s, q, c, Lex(s, q).end)
    ensures forall c, op, o :: IsSign(c, op, level) && Mark(s, q, c, o) ==>
              OpOf(Lex(s, q).kind, level) == Some(op) && Lex(s, q).end == o
  {
    var end := Lex(s, q).end;
    LexMark(s, q, '+', end);
    LexMark(s, q, '-', end);
    LexMark(s, q, '*', end);
    LexMark(s, q, '/', end);
    assert IsSign('+', Add, 2) && IsSign('-', Sub, 2) && IsSign('*', Mul, 1) && IsSign('/', Div, 1);
    forall c, op, o | IsSign(c, op, level) && Mark(s, q, c, o)
      ensures OpOf(Lex(s, q).kind, level) == Some(op) && end == o
    {
      LexMark(s, q, c, o);
    }
  }

  lemma NoSignLexed(s: string, r: nat, level: nat)
    requires r <= |s| && 1 <= level <= 2
    ensures NoSign(s, r, level) <==> OpOf(Lex(s, r).kind, level) == None
  {
    SignLexed(s, r, level);
  }

  lemma NotEnded(s: string, r: nat, level: nat)
    requires r <= |s| && level <= 2
    ensures Ended(s, r, level) <==> forall l :: 1 <= l <= level ==> OpOf(Lex(s, r).kind, l) == None
  {
    NoSignLexed(s, r, 1);
    NoSignLexed(s, r, 2);
  }

  ghost function Parsed(s: string, q: nat, level: nat): (p: Parse)
    requires q <= |s| && level <= 2
    ensures Advances(CharSource(s), |s|)
  {
    CharAdvances(s);
    ParseAt(CharSource(s), |s|, q, level)
  }

  // The rules of the grammar, as above.

  lemma JoinWritten(s: string, q: nat, level: nat, c: char, t: Tree, m: nat, o: nat, r: nat)
    requires q <= |s| && 1 <= level <= 2 && t.Bin? && IsSign(c, t.op, level) && q < m && Mark(s, m, c, o)
    requires Writes(s, q, t.left, level - 1, m) && Writes(s, o, t.right, level, r)
    ensures Writes(s, q, t, level, r)
  {
  }

  lemma LowerWritten(s: string, q: nat, level: nat, t: Tree, r: nat)
    requires q <= |s| && 1 <= level <= 2 && Writes(s, q, t, level - 1, r)
    ensures Writes(s, q, t, level, r)
  {
  }

  ghost predicate Joins(s: string, q: nat, level: nat, t: Tree, c: char, m: nat, o: nat, r: nat)
    requires q <= |s| && 1 <= level <= 2
  {
    && t.Bin? && IsSign(c, t.op, level) && q < m && Mark(s, m, c, o)
    && Writes(s, q, t.left, level - 1, m) && Writes(s, o, t.right, level, r)
  }

  lemma WrittenCases(s: string, q: nat, level: nat, t: Tree, r: nat)
    requires q <= |s| && 1 <= level <= 2 && Writes(s, q, t, level, r)
    ensures Writes(s, q, t, level - 1, r) || exists c, m, o :: Joins(s, q, level, t, c, m, o, r)
  {
    if !Writes(s, q, t, level - 1, r) {
      var c, m, o :| && t.Bin? && IsSign(c, t.op, level) && q < m && Mark(s, m, c, o)
                     && Writes(s, q, t.left, level - 1, m) && Writes(s, o, t.right, level, r);
      assert Joins(s, q, level, t, c, m, o, r);
    }
  }

  /** What the parser reads is written there. */
  lemma {:induction false} ParseWrites(s: string, q: nat, level: nat, t: Tree, r: nat)
    requires q <= |s| && level <= 2 && Parsed(s, q, level) == Got(t, r)
    ensures r <= |s| && Writes(s, q, t, level, r) && Ended(s, r, level)
    decreases |s| - q, level, 1
  {
    if level == 0 {
      FactorWrites(s, q, t, r);
    } else {
      var p := Parsed(s, q, level - 1);
      ParseWrites(s, q, level - 1, p.tree, p.end);
      if OpOf(Lex(s, p.end).kind, level).Some? {
        JoinWrites(s, q, level, p.tree, p.end, t, r);
      } else {
        NotEnded(s, r, level);
        NotEnded(s, r, level - 1);
        LowerWritten(s, q, level, t, r);
      }
    }
  }

  lemma {:induction false} JoinWrites(s: string, q: nat, level: nat, l: Tree, m: nat, t: Tree, r: nat)
    requires q < m <= |s| && 1 <= level <= 2 && Parsed(s, q, level) == Got(t, r) && Parsed(s, q, level - 1) == Got(l, m)
    requires Writes(s, q, l, level - 1, m) && OpOf(Lex(s, m).kind, level).Some?
    ensures r <= |s| && Writes(s, q, t, level, r) && Ended(s, r, level)
    decreases |s| - q, level, 0
  {
    var op, o := OpOf(Lex(s, m).kind, level).value, Lex(s, m).end;
    var p := Parsed(s, o, level);
    ParseWrites(s, o, level, p.tree, p.end);
    assert t == Bin(op, l, p.tree) && r == p.end;
    SignLexed(s, m, level);
    var c :| IsSign(c, op, level) && Mark(s, m, c, o);
    JoinWritten(s, q, level, c, t, m, o, r);
  }

  lemma {:induction false} FactorWrites(s: string, q: nat, t: Tree, r: nat)
    requires q <= |s| && Parsed(s, q, 0) == Got(t, r)
    ensures r <= |s| && Writes(s, q, t, 0, r) && Ended(s, r, 0)
    decreases |s| - q, 0, 0
  {
    var k, o := Lex(s, q).kind, Lex(s, q).end;
    match k
    case KOpen =>
      LexMark(s, q, '(', o);
      var p := Parsed(s, o, 2);
      ParseWrites(s, o, 2, p.tree, p.end);
      LexMark(s, p.end, ')', r);
    case KMinus =>
      LexMark(s, q, '-', o);
      var p := Parsed(s, o, 0);
      ParseWrites(s, o, 0, p.tree, p.end);
    case KIdent => LexName(s, q, Lex(s, q).text, r);
    case KConst => LexLiteral(s, q, Lex(s, q).text, r);
    case _ =>
  }

  /** What is written is read by the parser, as far as it goes. */
  lemma {:induction false} WrittenParses(s: string, q: nat, t: Tree, level: nat, r: nat)
    requires q <= |s| && level <= 2 && Writes(s, q, t, level, r) && Ended(s, r, level)
    ensures r <= |s| && Parsed(s, q, level) == Got(t, r)
    decreases |s| - q, level, 1
  {
    if level == 0 {
      FactorParses(s, q, t, r);
    } else {
      WrittenCases(s, q, level, t, r);
      NotEnded(s, r, level);
      if Writes(s, q, t, level - 1, r) {
        NotEnded(s, r, level - 1);
        WrittenParses(s, q, t, level - 1, r);
        LastRule(CharSource(s), |s|, q, level, t, r);
      } else {
        var c, m, o :| Joins(s, q, level, t, c, m, o, r);
        JoinParses(s, q, level, t, c, m, o, r);
      }
    }
  }

  lemma {:induction false} JoinParses(s: string, q: nat, level: nat, t: Tree, c: char, m: nat, o: nat, r: nat)
    requires q <= |s| && 1 <= level <= 2 && Joins(s, q, level, t, c, m, o, r) && Ended(s, r, level)
    ensures r <= |s| && Parsed(s, q, level) == Got(t, r)
    decreases |s| - q, level, 0
  {
    SignLexed(s, m, level);
    NotEnded(s, m, level - 1);
    WrittenParses(s, q, t.left, level - 1, m);
    WrittenParses(s, o, t.right, level, r);
    JoinRule(CharSource(s), |s|, q, level, t.op, t.left, m, t.right, r);
  }

  lemma {:induction false} FactorParses(s: string, q: nat, t: Tree, r: nat)
    requires q <= |s| && Writes(s, q, t, 0, r)
    ensures r <= |s| && Parsed(s, q, 0) == Got(t, r)
    decreases |s| - q, 0, 0
  {
    if t.Ident? && WholeName(s, q, t.name, r) {
      LexName(s, q, t.name, r);
    } else if t.Const? && WholeLiteral(s, q, t.text, r) {
      LexLiteral(s, q, t.text, r);
    } else if t.Neg? && exists o :: Mark(s, q, '-', o) && Writes(s, o, t.arg, 0, r) {
      var o :| Mark(s, q, '-', o) && Writes(s, o, t.arg, 0, r);
      LexMark(s, q, '-', o);
      WrittenParses(s, o, t.arg, 0, r);
    } else {
      var o, m :| Mark(s, q, '(', o) && Mark(s, m, ')', r) && Writes(s, o, t, 2, m);
      ParenParses(s, q, t, o, m, r);
    }
  }

  lemma {:induction false} ParenParses(s: string, q: nat, t: Tree, o: nat, m: nat, r: nat)
    requires Mark(s, q, '(', o) && Mark(s, m, ')', r) && Writes(s, o, t, 2, m)
    ensures r <= |s| && Parsed(s, q, 0) == Got(t, r)
    decreases |s| - o, 3
  {
    LexMark(s, q, '(', o);
    LexMark(s, m, ')', r);
    NotEnded(s, m, 2);
    WrittenParses(s, o, t, 2, m);
  }

  /** The parser reads a tree up to r exactly when the tree is written there and nothing
      behind it continues it. */
  lemma {:induction false} ReadsWhatIsWritten(s: string, q: nat, level: nat, t: Tree, r: nat)
    requires q <= |s| && level <= 2
    ensures Parsed(s, q, level) == Got(t, r) <==> Writes(s, q, t, level, r) && Ended(s, r, level)
  {
    if Parsed(s, q, level) == Got(t, r) {
      ParseWrites(s, q, level, t, r);
    }
    if Writes(s, q, t, level, r) && Ended(s, r, level) {
      WrittenParses(s, q, t, level, r);
    }
  }

  /** So the grammar is not ambiguous. */
  lemma {:induction false} WrittenOnce(s: string, q: nat, level: nat, t: Tree, r: nat, t': Tree, r': nat)
    requires q <= |s| && level <= 2
    requires Writes(s, q, t, level, r) && Ended(s, r, level) && Writes(s, q, t', level, r') && Ended(s, r', level)
    ensures t == t' && r == r'
  {
    ReadsWhatIsWritten(s, q, level, t, r);
    ReadsWhatIsWritten(s, q, level, t', r');
  }

  // ---- what the evaluator computes ----

  /** The text up to r is an expression, not continued there, that computes v. */
  ghost predicate HasValue(e: Env, s: string, q: nat, level: nat, v: Value, r: nat)
    requires q <= |s| && level <= 2
  {
    exists t :: Writes(s, q, t, level, r) && Ended(s, r, level) && Computes(e, t, v)
  }

  ghost function Evaluated(e: Env, s: string, q: nat, level: nat): Eval
    requires e.Valid() && q <= |s| && level <= 2
  {
    CharAdvances(s);
    EvalAt(e, CharSource(s), |s|, q, level)
  }

  /** Evaluating a text gives the value of the expression it begins with, or fails if it
      begins with none or with one that has no value. */
  lemma {:induction false} EvaluatesText(e: Env, s: string, q: nat, level: nat, v: Value, r: nat)
    requires e.Valid() && q <= |s| && level <= 2
    ensures Evaluated(e, s, q, level) == Good(v, r) <==> HasValue(e, s, q, level, v, r)
  {
    CharAdvances(s);
    EvalComputes(e, CharSource(s), |s|, q, level);
    var p := Parsed(s, q, level);
    if p.Got? {
      ReadsWhatIsWritten(s, q, level, p.tree, p.end);
      OneValue(e, p.tree);
    }
    if HasValue(e, s, q, level, v, r) {
      var t :| Writes(s, q, t, level, r) && Ended(s, r, level) && Computes(e, t, v);
      ReadsWhatIsWritten(s, q, level, t, r);
    }
  }

  lemma {:induction false} OneValue(e: Env, t: Tree)
    requires e.Valid()
    ensures forall v, w :: Computes(e, t, v) && Computes(e, t, w) ==> v == w
  {
    forall v, w | Computes(e, t, v) && Computes(e, t, w) ensures v == w {
      MeaningComputes(e, t, v);
      MeaningComputes(e, t, w);
    }
  }

  /** The value of two operands with a sign between them: of l - r, what added to the
      value of r gives the value of l, and so on. */
  lemma {:induction false} SignMeans(e: Env, s: string, q: nat, level: nat, c: char, t: Tree, m: nat, o: nat, r: nat,
                                     a: Value, b: Value, v: Value)
    requires e.Valid() && q <= |s| && 1 <= level <= 2 && Joins(s, q, level, t, c, m, o, r) && Ended(s, r, level)
    requires Computes(e, t.left, a) && Computes(e, t.right, b)
    ensures Evaluated(e, s, q, level) == Good(v, r) <==> Operated(t.op, a, b, v)
  {
    OneValue(e, t.left);
    OneValue(e, t.right);
    assert Computes(e, t, v) <==> Operated(t.op, a, b, v);
    EvaluatesText(e, s, q, level, v, r);
    JoinWritten(s, q, level, c, t, m, o, r);
    if HasValue(e, s, q, level, v, r) {
      var t' :| Writes(s, q, t', level, r) && Ended(s, r, level) && Computes(e, t', v);
      WrittenOnce(s, q, level, t, r, t', r);
    }
  }

  /** eval_expr on a new evaluator. */
  method Evaluate(s: string, env: Env) returns (v: Value, endp: nat, error: Error)
    requires env.Valid() && Clean(s)
    ensures error == NoErr ==> HasValue(env, s, 0, 2, v, endp)
    ensures error != NoErr ==> forall w, r :: !HasValue(env, s, 0, 2, w, r)
  {
    var es := new EvalState(s, env);
    v, endp := es.EvalExpr();
    error := es.error;
    forall w, r ensures Evaluated(env, s, 0, 2) == Good(w, r) <==> HasValue(env, s, 0, 2, w, r) {
      EvaluatesText(env, s, 0, 2, w, r);
    }
  }

  // ---- printing trees ----

  predicate IsSum(t: Tree) { t.Bin? && (t.op == Add || t.op == Sub) }
  predicate IsProduct(t: Tree) { t.Bin? && (t.op == Mul || t.op == Div) }

  /** How far a tree is from the grammar level at which it is taken apart. */
  function Detour(t: Tree, level: nat): nat {
    if IsSum(t) then (if level >= 2 then 0 else if level == 0 then 1 else 2)
    else if IsProduct(t) then (if level == 1 then 0 else if level >= 2 then 1 else 2)
    else level
  }

  function Sign(op: Op): char {
    match op case Add => '+' case Sub => '-' case Mul => '*' case Div => '/'
  }

  /** A tree as a factor (level 0), a term (1) or an expression (2), with the
      parentheses it needs there. */
  function Print(t: Tree, level: nat): string
    requires level <= 2
    decreases t, Detour(t, level)
  {
    if level == 2 then
      if IsSum(t) then Print(t.left, 1) + [' ', Sign(t.op), ' '] + Print(t.right, 2) else Print(t, 1)
    else if level == 1 then
      if IsProduct(t) then Print(t.left, 0) + [' ', Sign(t.op), ' '] + Print(t.right, 1) else Print(t, 0)
    else
      match t
      case Ident(s) => s
      case Const(s) => s
      case Neg(x) => ['-'] + Print(x, 0)
      case Bin(_, _, _) => ['('] + Print(t, 2) + [')']
  }

  /** A tree of names and literals. */
  predicate Proper(t: Tree) {
    match t
    case Ident(s) => Name(s)
    case Const(s) => Literal(s)
    case Neg(x) => Proper(x)
    case Bin(_, l, r) => Proper(l) && Proper(r)
  }

  /** The string w stands in s at q, and no longer word can. */
  predicate Printed(s: string, q: nat, w: string, r: nat) {
    r == q + |w| <= |s| && s[q..r] == w && (r < |s| ==> s[r] == ' ' || s[r] == ')')
  }

  lemma {:induction false} BlankBefore(s: string, q: nat, t: Tree, level: nat, r: nat)
    requires q < |s| && Blank(s[q]) && level <= 2 && Writes(s, q + 1, t, level, r)
    ensures Writes(s, q, t, level, r)
    decreases level
  {
    if level > 0 {
      WrittenCases(s, q + 1, level, t, r);
      if Writes(s, q + 1, t, level - 1, r) {
        BlankBefore(s, q, t, level - 1, r);
        LowerWritten(s, q, level, t, r);
      } else {
        var c, m, o :| Joins(s, q + 1, level, t, c, m, o, r);
        BlankBefore(s, q, t.left, level - 1, m);
        JoinWritten(s, q, level, c, t, m, o, r);
      }
    }
  }

  lemma SignPrinted(s: string, q: nat, a: string, c: char, b: string, r: nat)
    requires |a| > 0 && Printed(s, q, a + [' ', c, ' '] + b, r) && KindOf(c) != KInvalid
    ensures Printed(s, q, a, q + |a|) && Mark(s, q + |a|, c, q + |a| + 2)
    ensures q + |a| + 2 < |s| && Blank(s[q + |a| + 2]) && Printed(s, q + |a| + 3, b, r)
  {
    var w, m := a + [' ', c, ' '] + b, q + |a|;
    assert forall k :: 0 <= k < |w| ==> s[q + k] == w[k];
    assert w[|a|] == ' ' && w[|a| + 1] == c && w[|a| + 2] == ' ';
    assert s[q..m] == w[..|a|] == a;
    assert s[m + 3..r] == w[|a| + 3..] == b;
  }

  lemma InnerPrinted(s: string, q: nat, a: string, b: string, c: string, r: nat)
    requires Printed(s, q, a + b + c, r) && (|c| > 0 ==> c[0] == ')')
    ensures Printed(s, q + |a|, b, r - |c|) && s[q..q + |a|] == a && s[r - |c|..r] == c
  {
    var w := a + b + c;
    assert forall k :: 0 <= k < |w| ==> s[q + k] == w[k];
    assert s[q..q + |a|] == w[..|a|] == a;
    assert s[q + |a|..r - |c|] == w[|a|..|a| + |b|] == b;
    assert s[r - |c|..r] == w[|a| + |b|..] == c;
  }

  lemma {:induction false} PrintNotEmpty(t: Tree, level: nat)
    requires level <= 2 && Proper(t)
    ensures |Print(t, level)| > 0
    decreases t, Detour(t, level)
  {
    if level == 2 && !IsSum(t) {
      PrintNotEmpty(t, 1);
    } else if level == 1 && !IsProduct(t) {
      PrintNotEmpty(t, 0);
    }
  }

  /** A printed tree is written there. */
  lemma {:induction false} PrintWrites(t: Tree, level: nat, s: string, q: nat, r: nat)
    requires level <= 2 && Proper(t) && Printed(s, q, Print(t, level), r)
    ensures Writes(s, q, t, level, r)
    decreases t, Detour(t, level), 1
  {
    if level >= 1 && (if level == 2 then IsSum(t) else IsProduct(t)) {
      JoinPrinted(t, level, s, q, r);
    } else if level >= 1 {
      PrintWrites(t, level - 1, s, q, r);
      LowerWritten(s, q, level, t, r);
    } else {
      FactorPrinted(t, s, q, r);
    }
  }

  lemma {:induction false} JoinPrinted(t: Tree, level: nat, s: string, q: nat, r: nat)
    requires 1 <= level <= 2 && (if level == 2 then IsSum(t) else IsProduct(t)) && Proper(t)
    requires Printed(s, q, Print(t, level), r)
    ensures Writes(s, q, t, level, r)
    decreases t, 0, 0
  {
    var a, b := Print(t.left, level - 1), Print(t.right, level);
    var m := q + |a|;
    PrintNotEmpty(t.left, level - 1);
    SignPrinted(s, q, a, Sign(t.op), b, r);
    PrintWrites(t.left, level - 1, s, q, m);
    PrintWrites(t.right, level, s, m + 3, r);
    BlankBefore(s, m + 2, t.right, level, r);
    JoinWritten(s, q, level, Sign(t.op), t, m, m + 2, r);
  }

  lemma {:induction false} FactorPrinted(t: Tree, s: string, q: nat, r: nat)
    requires Proper(t) && Printed(s, q, Print(t, 0), r)
    ensures Writes(s, q, t, 0, r)
    decreases t, Detour(t, 0), 0
  {
    match t
    case Ident(w) => NameStops(s, q, w, r);
    case Const(w) => LiteralStops(s, q, w, r);
    case Neg(x) =>
      assert Print(t, 0) == ['-'] + Print(x, 0) + [];
      InnerPrinted(s, q, ['-'], Print(x, 0), [], r);
      PrintWrites(x, 0, s, q + 1, r);
      assert Mark(s, q, '-', q + 1);
    case Bin(_, _, _) =>
      InnerPrinted(s, q, ['('], Print(t, 2), [')'], r);
      PrintWrites(t, 2, s, q + 1, r - 1);
      assert Mark(s, q, '(', q + 1) && Mark(s, r - 1, ')', r);
  }

  lemma NameStops(s: string, q: nat, w: string, r: nat)
    requires Printed(s, q, w, r) && Name(w)
    ensures WholeName(s, q, w, r)
  {
    if r < |s| {
      var v := w + [s[r]];
      assert v[|w|] == s[r];
    }
  }

  lemma LiteralStops(s: string, q: nat, w: string, r: nat)
    requires Printed(s, q, w, r) && Literal(w)
    ensures WholeLiteral(s, q, w, r)
  {
    if r < |s| {
      var v := w + [s[r]];
      assert v[|w|] == s[r] && !InLiteral(v, |w|);
    }
  }

  /** Every tree of names and literals, printed, is read back as itself, to the end. */
  lemma {:induction false} PrintParses(t: Tree)
    requires Proper(t)
    ensures Parsed(Print(t, 2), 0, 2) == Got(t, |Print(t, 2)|)
  {
    var s := Print(t, 2);
    assert s[0..|s|] == s;
    PrintWrites(t, 2, s, 0, |s|);
    ReadsWhatIsWritten(s, 0, 2, t, |s|);
  }

  /** So different trees print differently. */
  lemma {:induction false} PrintInjective(t: Tree, u: Tree)
    requires Proper(t) && Proper(u) && Print(t, 2) == Print(u, 2)
    ensures t == u
  {
    PrintParses(t);
    PrintParses(u);
  }
}
