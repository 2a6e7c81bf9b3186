/** What the climb of module Pratt makes of two operators in a row: under any table, and under the standard one by
    the order its operators are ranked in. */
module Precedence {
  import opened Pratt
  import opened Grammar

  // ----- Any table -----

  predicate IsOperand(tok: Tok) { tok.Num? || tok.Ident? }

  function OperandOf(tok: Tok): Expr
    requires IsOperand(tok)
  {
    if tok.Num? then Lit(tok.n) else Var(tok.id)
  }

  lemma {:induction false} ReadsOperand(t: Table, tok: Tok, rest: seq<Tok>, min: nat)
    requires IsOperand(tok)
    ensures ExprBp(t, [tok] + rest, min) == Climb(t, OperandOf(tok), false, rest, min)
  {
    assert ([tok] + rest)[1..] == rest;
  }

  lemma {:induction false} ReadsLast(t: Table, tok: Tok, min: nat)
    requires IsOperand(tok)
    ensures ExprBp(t, [tok], min) == Ok(Parsed(OperandOf(tok), []))
  {
    ReadsOperand(t, tok, [], min);
    assert [tok] + [] == [tok];
  }

  lemma {:induction false} ReadsPrefix(t: Table, u: UnOp, rest: seq<Tok>, min: nat)
    requires ExprBp(t, rest, t.prefix(u)).Ok?
    ensures var x := ExprBp(t, rest, t.prefix(u)).value;
      ExprBp(t, [UnTok(u)] + rest, min) == Climb(t, Unary(u, x.e), false, x.rest, min)
  {
    assert ([UnTok(u)] + rest)[1..] == rest;
  }

  /** What the climb makes of an operator and the one operand after it. */
  lemma {:induction false} ClimbsLast(t: Table, lhs: Expr, q: BinOp, c: Tok, min: nat)
    requires IsOperand(c)
    ensures Climb(t, lhs, false, [BinTok(q), c], min) ==
      if t.binary(q).left < min then Ok(Parsed(lhs, [BinTok(q), c]))
      else if t.binary(q).assoc == NonAssoc && ChainsNonAssoc(t, lhs, t.binary(q).left) then Err(NonAssocChain)
      else Ok(Parsed(Binary(lhs, q, OperandOf(c)), []))
  {
    assert [BinTok(q), c][1..] == [c];
    ReadsLast(t, c, t.binary(q).right);
  }

  lemma {:induction false} ReadsTwo(t: Table, b: Tok, q: BinOp, c: Tok, min: nat)
    requires IsOperand(b) && IsOperand(c)
    ensures ExprBp(t, [b, BinTok(q), c], min) ==
      if t.binary(q).left < min then Ok(Parsed(OperandOf(b), [BinTok(q), c]))
      else Ok(Parsed(Binary(OperandOf(b), q, OperandOf(c)), []))
  {
    assert [b, BinTok(q), c] == [b] + [BinTok(q), c];
    ReadsOperand(t, b, [BinTok(q), c], min);
    ClimbsLast(t, OperandOf(b), q, c, min);
  }

  function Three(a: Tok, p: BinOp, b: Tok, q: BinOp, c: Tok): seq<Tok> { [a, BinTok(p), b, BinTok(q), c] }

  /** Three operands group to the right when the second operator reaches over the first one's right power; if not
      they group to the left, unless that chains two non-associative operators of one level. */
  lemma {:induction false} TwoOperators(t: Table, a: Tok, p: BinOp, b: Tok, q: BinOp, c: Tok)
    requires IsOperand(a) && IsOperand(b) && IsOperand(c)
    ensures var x, y, z := OperandOf(a), OperandOf(b), OperandOf(c);
      Parse(t, Three(a, p, b, q, c)) ==
        if t.binary(q).left >= t.binary(p).right then Ok(Binary(x, p, Binary(y, q, z)))
        else if t.binary(p).assoc == t.binary(q).assoc == NonAssoc && t.binary(p).left == t.binary(q).left then Err(NonAssocChain)
        else Ok(Binary(Binary(x, p, y), q, z))
  {
    var rest := [BinTok(p), b, BinTok(q), c];
    assert Three(a, p, b, q, c) == [a] + rest && rest[1..] == [b, BinTok(q), c];
    ReadsOperand(t, a, rest, 0);
    ReadsTwo(t, b, q, c, t.binary(p).right);
    ClimbsLast(t, Binary(OperandOf(a), p, OperandOf(b)), q, c, 0);
  }

  /** A prefix operator takes the operator after its operand when that binds as tightly as it demands. */
  lemma {:induction false} PrefixThenOperator(t: Table, u: UnOp, a: Tok, q: BinOp, b: Tok)
    requires IsOperand(a) && IsOperand(b)
    ensures var x, y := OperandOf(a), OperandOf(b);
      Parse(t, [UnTok(u), a, BinTok(q), b]) ==
        Ok(if t.binary(q).left >= t.prefix(u) then Unary(u, Binary(x, q, y)) else Binary(Unary(u, x), q, y))
  {
    assert [UnTok(u), a, BinTok(q), b] == [UnTok(u)] + [a, BinTok(q), b];
    ReadsTwo(t, a, q, b, t.prefix(u));
    ReadsPrefix(t, u, [a, BinTok(q), b], 0);
    ClimbsLast(t, Unary(u, OperandOf(a)), q, b, 0);
  }

  /** After an operator it takes its operand alone. */
  lemma {:induction false} OperatorThenPrefix(t: Table, a: Tok, p: BinOp, u: UnOp, b: Tok)
    requires IsOperand(a) && IsOperand(b)
    ensures Parse(t, [a, BinTok(p), UnTok(u), b]) == Ok(Binary(OperandOf(a), p, Unary(u, OperandOf(b))))
  {
    var rest := [BinTok(p), UnTok(u), b];
    assert [a, BinTok(p), UnTok(u), b] == [a] + rest && rest[1..] == [UnTok(u), b] == [UnTok(u)] + [b];
    ReadsOperand(t, a, rest, 0);
    ReadsLast(t, b, t.prefix(u));
    ReadsPrefix(t, u, [b], t.binary(p).right);
  }

  /** So do two in a row. */
  lemma {:induction false} TwoPrefixes(t: Table, u: UnOp, v: UnOp, a: Tok)
    requires IsOperand(a)
    ensures Parse(t, [UnTok(u), UnTok(v), a]) == Ok(Unary(u, Unary(v, OperandOf(a))))
  {
    assert [UnTok(u), UnTok(v), a] == [UnTok(u)] + [UnTok(v), a] && [UnTok(v), a] == [UnTok(v)] + [a];
    ReadsLast(t, a, t.prefix(v));
    ReadsPrefix(t, v, [a], t.prefix(u));
    ReadsPrefix(t, u, [UnTok(v), a], 0);
  }

  // ----- The standard order -----

  /** From the operators that bind loosest to the one that binds tightest. */
  const LEVELS: seq<set<BinOp>> := [{Or}, {And}, {Equal, Less, Greater}, {Add, Sub}, {Mul, Div}, {Pow}]

  ghost predicate Tighter(q: BinOp, p: BinOp) { exists i, j :: 0 <= i < j < |LEVELS| && p in LEVELS[i] && q in LEVELS[j] }

  predicate IsComparison(op: BinOp) { op == Equal || op == Less || op == Greater }

  function Level(op: BinOp): (i: nat)
    ensures i < |LEVELS| && forall j :: 0 <= j < |LEVELS| ==> (op in LEVELS[j] <==> j == i)
  {
    match op
    case Or => 0
    case And => 1
    case Equal => 2
    case Less => 2
    case Greater => 2
    case Add => 3
    case Sub => 3
    case Mul => 4
    case Div => 4
    case Pow => 5
  }

  lemma {:induction false} TighterByLevel(q: BinOp, p: BinOp)
    ensures Tighter(q, p) <==> Level(p) < Level(q)
  {
    assert p in LEVELS[Level(p)] && q in LEVELS[Level(q)];
  }

  lemma {:induction false} StandardByLevel(p: BinOp, q: BinOp)
    ensures StandardBinary(q).left >= StandardBinary(p).right <==> Level(p) < Level(q) || (p == Pow && q == Pow)
    ensures StandardBinary(p).left == StandardBinary(q).left <==> Level(p) == Level(q)
    ensures StandardBinary(p).assoc == NonAssoc <==> IsComparison(p)
  {}

  /** Under the standard table `a p b q c` groups to the right exactly when q binds tighter or both are powers, does not
      parse when both are comparisons, and groups to the left otherwise. */
  lemma {:induction false} StandardOrder(a: Tok, p: BinOp, b: Tok, q: BinOp, c: Tok)
    requires IsOperand(a) && IsOperand(b) && IsOperand(c)
    ensures var x, y, z := OperandOf(a), OperandOf(b), OperandOf(c);
      Parse(STANDARD, Three(a, p, b, q, c)) ==
        if Tighter(q, p) || p == q == Pow then Ok(Binary(x, p, Binary(y, q, z)))
        else if IsComparison(p) && IsComparison(q) then Err(NonAssocChain)
        else Ok(Binary(Binary(x, p, y), q, z))
  {
    TwoOperators(STANDARD, a, p, b, q, c);
    StandardByLevel(p, q);
    StandardByLevel(q, p);
    TighterByLevel(q, p);
    assert STANDARD.binary(p) == StandardBinary(p) && STANDARD.binary(q) == StandardBinary(q);
  }

  /** `NOT` reaches over comparisons and what binds tighter, but not over `AND` and `OR`; a sign reaches over nothing. */
  lemma {:induction false} StandardPrefixes(u: UnOp, a: Tok, q: BinOp, b: Tok)
    requires IsOperand(a) && IsOperand(b)
    ensures var x, y := OperandOf(a), OperandOf(b);
      Parse(STANDARD, [UnTok(u), a, BinTok(q), b]) ==
        Ok(if u == Not && Tighter(q, And) then Unary(u, Binary(x, q, y)) else Binary(Unary(u, x), q, y))
  {
    PrefixThenOperator(STANDARD, u, a, q, b);
    TighterByLevel(q, And);
    assert STANDARD.binary(q) == StandardBinary(q) && STANDARD.prefix(u) == StandardPrefix(u);
  }

  /** The same in the operators' own spellings. */
  lemma {:induction false} StandardSpelling(x: nat, y: nat, z: nat)
    ensures GroupsRight(x, Pipe, Or, y, Amp, And, z) && GroupsRight(x, Eq, Equal, y, Plus, Add, z)
    ensures GroupsRight(x, Lt, Less, y, Minus, Sub, z) && GroupsRight(x, Gt, Greater, y, Star, Mul, z)
    ensures GroupsRight(x, Slash, Div, y, Caret, Pow, z)
  {
    GroupsTighter(x, Or, y, And, z);
    GroupsTighter(x, Equal, y, Add, z);
    GroupsTighter(x, Less, y, Sub, z);
    GroupsTighter(x, Greater, y, Mul, z);
    GroupsTighter(x, Div, y, Pow, z);
  }

  ghost predicate GroupsRight(x: nat, first: Tok, p: BinOp, y: nat, second: Tok, q: BinOp, z: nat) {
    Parse(STANDARD, [Ident(x), first, Ident(y), second, Ident(z)]) == Ok(Binary(Var(x), p, Binary(Var(y), q, Var(z))))
  }

  lemma {:induction false} GroupsTighter(x: nat, p: BinOp, y: nat, q: BinOp, z: nat)
    requires Level(p) < Level(q)
    ensures GroupsRight(x, BinTok(p), p, y, BinTok(q), q, z)
  {
    StandardOrder(Ident(x), p, Ident(y), q, Ident(z));
    TighterByLevel(q, p);
  }

  // ----- What is refused -----

  /** A tree cut off after an operator, with its group left open, or with something after it is refused for what is
      missing or left. */
  lemma {:induction false} RefusesCut(t: Table, c: Cst, op: BinOp, tok: Tok)
    requires Good(t, c) && Clear(t, c, t.binary(op).left) && !Chains(t, c, op) && IsOperand(tok)
    ensures Parse(t, []) == Err(ExpectedExpr)
    ensures Parse(t, Yield(c) + [BinTok(op)]) == Err(ExpectedExpr)
    ensures Parse(t, [LParen] + Yield(c)) == Err(ExpectedRParen)
    ensures Parse(t, Yield(c) + [tok]) == Err(TrailingTokens)
  {
    FitsZero(t, c);
    ReadsGood(t, c, [BinTok(op)], 0);
    ClimbsInto(t, c, op);
    ReadsGood(t, c, [], 0);
    assert Yield(c) + [] == Yield(c) && ([LParen] + Yield(c))[1..] == Yield(c);
    assert Climb(t, Strip(c), c.CParen?, [], 0) == Ok(Parsed(Strip(c), []));
    assert Prefix(t, [LParen] + Yield(c)) == Err(ExpectedRParen);
    ReadsGood(t, c, [tok], 0);
    assert Climb(t, Strip(c), c.CParen?, [tok], 0) == Ok(Parsed(Strip(c), [tok]));
  }

  lemma {:induction false} ClimbsInto(t: Table, c: Cst, op: BinOp)
    requires !Chains(t, c, op)
    ensures Climb(t, Strip(c), c.CParen?, [BinTok(op)], 0) == Err(ExpectedExpr)
  {
    assert [BinTok(op)][1..] == [];
    assert Prefix(t, []) == Err(ExpectedExpr) && ExprBp(t, [], t.binary(op).right) == Err(ExpectedExpr);
    assert ChainsNonAssoc(t, Strip(c), t.binary(op).left) ==> c.CBin? || c.CParen?;
  }
}
