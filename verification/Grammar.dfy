/** What the precedence climb of module Pratt accepts, and what the renderer of
    crates/squonk-ast/src/render/nodes.rs writes, as concrete trees that keep their parentheses. */
module Grammar {
  import opened Pratt
  import opened Wrappers

  // ----- Concrete trees -----

  datatype Cst = CLit(n: int) | CVar(id: nat) | CUn(op: UnOp, x: Cst) | CBin(l: Cst, bop: BinOp, r: Cst) | CParen(x: Cst)

  function BinTok(op: BinOp): (tok: Tok)
    ensures InfixOp(tok) == Some(op)
  {
    match op
    case Or => Pipe
    case And => Amp
    case Equal => Eq
    case Less => Lt
    case Greater => Gt
    case Add => Plus
    case Sub => Minus
    case Mul => Star
    case Div => Slash
    case Pow => Caret
  }

  function UnTok(op: UnOp): (tok: Tok)
    ensures PrefixOp(tok) == Some(op) && !tok.Num? && !tok.Ident?
  {
    match op
    case Neg => Minus
    case Pos => Plus
    case Not => Bang
  }

  /** The tokens of a tree, */
  function Yield(c: Cst): (toks: seq<Tok>)
    ensures toks != []
  {
    match c
    case CLit(n) => [Num(n)]
    case CVar(id) => [Ident(id)]
    case CUn(op, x) => [UnTok(op)] + Yield(x)
    case CBin(l, op, r) => Yield(l) + ([BinTok(op)] + Yield(r))
    case CParen(x) => [LParen] + (Yield(x) + [RParen])
  }

  /** and what is left of it without its parentheses. */
  function Strip(c: Cst): Expr {
    match c
    case CLit(n) => Lit(n)
    case CVar(id) => Var(id)
    case CUn(op, x) => Unary(op, Strip(x))
    case CBin(l, op, r) => Binary(Strip(l), op, Strip(r))
    case CParen(x) => Strip(x)
  }

  // ----- The grammar -----

  /** A climb at this power takes every operator on the tree's left edge. */
  predicate Fits(t: Table, c: Cst, min: nat) {
    c.CBin? ==> t.binary(c.bop).left >= min && Fits(t, c.l, min)
  }

  /** No operator on the tree's right edge would take a following operator of this left power. */
  predicate Clear(t: Table, c: Cst, level: nat) {
    match c
    case CUn(op, x) => t.prefix(op) > level && Clear(t, x, level)
    case CBin(_, op, r) => t.binary(op).right > level && Clear(t, r, level)
    case _ => true
  }

  predicate Chains(t: Table, l: Cst, op: BinOp) {
    t.binary(op).assoc == NonAssoc && l.CBin? && ChainsNonAssoc(t, Strip(l), t.binary(op).left)
  }

  /** Operands bind as tightly as their operator demands, nothing to the right of an operand belongs
      inside it, and no non-associative operator chains. */
  predicate Good(t: Table, c: Cst) {
    match c
    case CUn(op, x) => Good(t, x) && Fits(t, x, t.prefix(op))
    case CBin(l, op, r) =>
      Good(t, l) && Good(t, r) && Fits(t, r, t.binary(op).right) && Clear(t, l, t.binary(op).left) && !Chains(t, l, op)
    case CParen(x) => Good(t, x)
    case _ => true
  }

  predicate ClearOf(t: Table, c: Cst, rest: seq<Tok>) {
    rest != [] && InfixOp(rest[0]).Some? ==> Clear(t, c, t.binary(InfixOp(rest[0]).value).left)
  }

  /** c is read whole when the climb starts on it at this power. */
  ghost predicate Reads(t: Table, c: Cst, rest: seq<Tok>, min: nat) {
    ExprBp(t, Yield(c) + rest, min) == Climb(t, Strip(c), c.CParen?, rest, min)
  }

  lemma ReadsUnary(t: Table, op: UnOp, x: Cst, rest: seq<Tok>, min: nat)
    requires Reads(t, x, rest, t.prefix(op)) && NextOp(t, rest, t.prefix(op)).None?
    ensures Reads(t, CUn(op, x), rest, min)
  {
    assert (Yield(CUn(op, x)) + rest)[1..] == Yield(x) + rest;
  }

  lemma ReadsParen(t: Table, x: Cst, rest: seq<Tok>, min: nat)
    requires Reads(t, x, [RParen] + rest, 0)
    ensures Reads(t, CParen(x), rest, min)
  {
    assert (Yield(CParen(x)) + rest)[1..] == Yield(x) + ([RParen] + rest);
    assert ([RParen] + rest)[1..] == rest;
  }

  lemma ReadsBinary(t: Table, l: Cst, op: BinOp, r: Cst, rest: seq<Tok>, min: nat)
    requires t.binary(op).left >= min && !Chains(t, l, op)
    requires Reads(t, l, [BinTok(op)] + (Yield(r) + rest), min)
    requires Reads(t, r, rest, t.binary(op).right) && NextOp(t, rest, t.binary(op).right).None?
    ensures Reads(t, CBin(l, op, r), rest, min)
  {
    var after := [BinTok(op)] + (Yield(r) + rest);
    assert Yield(CBin(l, op, r)) + rest == Yield(l) + after;
    assert after[1..] == Yield(r) + rest;
  }

  lemma ReadsLeaf(t: Table, c: Cst, rest: seq<Tok>, min: nat)
    requires c.CLit? || c.CVar?
    ensures Reads(t, c, rest, min)
  {
    assert (Yield(c) + rest)[1..] == rest;
  }

  /** The climb reads a good tree whole and goes on after it. */
  lemma {:induction false} ReadsGood(t: Table, c: Cst, rest: seq<Tok>, min: nat)
    requires Good(t, c) && Fits(t, c, min) && ClearOf(t, c, rest)
    ensures Reads(t, c, rest, min)
    decreases c
  {
    match c
    case CUn(op, x) =>
      ReadsGood(t, x, rest, t.prefix(op));
      ReadsUnary(t, op, x, rest, min);
    case CParen(x) =>
      FitsZero(t, x);
      ReadsGood(t, x, [RParen] + rest, 0);
      ReadsParen(t, x, rest, min);
    case CBin(l, op, r) =>
      ReadsGood(t, r, rest, t.binary(op).right);
      ReadsGood(t, l, [BinTok(op)] + (Yield(r) + rest), min);
      ReadsBinary(t, l, op, r, rest, min);
    case _ => ReadsLeaf(t, c, rest, min);
  }

  /** What the climb has read is a good tree that nothing after it belongs inside. */
  ghost predicate Read(t: Table, c: Cst, toks: seq<Tok>, e: Expr, rest: seq<Tok>) {
    toks == Yield(c) + rest && Strip(c) == e && Good(t, c) && ClearOf(t, c, rest)
  }

  lemma {:induction false} ReadByExpr(t: Table, toks: seq<Tok>, min: nat) returns (c: Cst)
    requires ExprBp(t, toks, min).Ok?
    ensures var x := ExprBp(t, toks, min).value;
      Read(t, c, toks, x.e, x.rest) && Fits(t, c, min) && NextOp(t, x.rest, min).None?
    decreases |toks|, 2
  {
    var p := Prefix(t, toks).value;
    c := ReadByPrefix(t, toks);
    c := ReadByClimb(t, toks, c, p.e, p.grouped, p.rest, min);
  }

  lemma {:induction false} ReadByPrefix(t: Table, toks: seq<Tok>) returns (c: Cst)
    requires Prefix(t, toks).Ok?
    ensures var p := Prefix(t, toks).value;
      Read(t, c, toks, p.e, p.rest) && !c.CBin? && (p.grouped <==> c.CParen?)
    decreases |toks|, 1
  {
    var tok := toks[0];
    assert toks == [tok] + toks[1..];
    if tok.Num? {
      c := CLit(tok.n);
    } else if tok.Ident? {
      c := CVar(tok.id);
    } else if PrefixOp(tok).Some? {
      var op := PrefixOp(tok).value;
      assert tok == UnTok(op);
      var x := ReadByExpr(t, toks[1..], t.prefix(op));
      c := CUn(op, x);
    } else {
      var inner := ExprBp(t, toks[1..], 0).value;
      var x := ReadByExpr(t, toks[1..], 0);
      c := CParen(x);
      assert inner.rest == [RParen] + inner.rest[1..];
    }
  }

  lemma OperandsJoin(toks: seq<Tok>, l: Cst, op: BinOp, r: Cst, rest: seq<Tok>, after: seq<Tok>)
    requires toks == Yield(l) + rest && rest != [] && rest[0] == BinTok(op) && rest[1..] == Yield(r) + after
    ensures toks == Yield(CBin(l, op, r)) + after
  {
    assert rest == [BinTok(op)] + (Yield(r) + after);
  }

  lemma {:induction false} ReadByClimb(t: Table, toks: seq<Tok>, l: Cst, lhs: Expr, grouped: bool, rest: seq<Tok>, min: nat)
    returns (c: Cst)
    requires Read(t, l, toks, lhs, rest) && Fits(t, l, min) && (grouped <==> l.CParen?) && |rest| < |toks|
    requires Climb(t, lhs, grouped, rest, min).Ok?
    ensures var x := Climb(t, lhs, grouped, rest, min).value;
      Read(t, c, toks, x.e, x.rest) && Fits(t, c, min) && NextOp(t, x.rest, min).None?
    decreases |rest|, 0
  {
    match NextOp(t, rest, min)
    case None => c := l;
    case Some(op) =>
      var right := ExprBp(t, rest[1..], t.binary(op).right).value;
      var r := ReadByExpr(t, rest[1..], t.binary(op).right);
      c := CBin(l, op, r);
      OperandsJoin(toks, l, op, r, rest, right.rest);
      c := ReadByClimb(t, toks, c, Binary(lhs, op, right.e), false, right.rest, min);
  }

  /** The parser accepts exactly the tokens of good trees, and gives their stripped form. */
  lemma ParsesExactlyGood(t: Table, toks: seq<Tok>, e: Expr)
    ensures Parse(t, toks) == Ok(e) <==> exists c :: Yield(c) == toks && Strip(c) == e && Good(t, c)
  {
    if Parse(t, toks) == Ok(e) {
      var c := ReadByExpr(t, toks, 0);
      assert Yield(c) + [] == Yield(c);
    }
    if c :| Yield(c) == toks && Strip(c) == e && Good(t, c) {
      FitsZero(t, c);
      ReadsGood(t, c, [], 0);
      assert Yield(c) + [] == toks;
    }
  }

  lemma {:induction false} FitsZero(t: Table, c: Cst)
    ensures Fits(t, c, 0)
  {
    if c.CBin? { FitsZero(t, c.l); }
  }
}
