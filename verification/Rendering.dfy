/** Render-time parenthesization (crates/squonk-ast/src/precedence/mod.rs and render/nodes.rs) against the
    precedence climb: when rendering and parsing gives the tree back. */
module Rendering {
  import opened Pratt
  import opened Grammar
  import opened Precedence

  // ----- Rendering -----

  datatype Side = LeftSide | RightSide
  datatype Mode = Canonical | Parenthesized

  predicate NeedsParensBetween(parent: Bp, child: Bp, side: Side) {
    var samePrecedence := parent.left == child.left && parent.right == child.right;
    match side
    case LeftSide => child.right < parent.left || (samePrecedence && parent.assoc != Left)
    case RightSide => child.left < parent.right || (samePrecedence && parent.assoc != Right)
  }

  predicate BinaryChildNeedsParens(t: Table, parent: BinOp, child: Expr, side: Side) {
    match child
    case Binary(_, op, _) => NeedsParensBetween(t.binary(parent), t.binary(op), side)
    case Unary(op, _) => side == LeftSide && t.prefix(op) < t.binary(parent).left
    case _ => false
  }

  predicate IsSign(op: UnOp) { op == Neg || op == Pos }

  predicate PrefixOperandNeedsParens(t: Table, op: UnOp, operand: Expr) {
    match operand
    case Binary(_, child, _) => t.binary(child).left < t.prefix(op)
    case Unary(inner, _) => IsSign(op) && IsSign(inner)
    case _ => false
  }

  function Group(wrap: bool, toks: seq<Tok>): seq<Tok> { if wrap then [LParen] + (toks + [RParen]) else toks }

  function Render(t: Table, mode: Mode, e: Expr): seq<Tok> {
    match e
    case Lit(n) => [Num(n)]
    case Var(id) => [Ident(id)]
    case Unary(op, x) =>
      var wrap := mode == Canonical && PrefixOperandNeedsParens(t, op, x);
      Group(mode == Parenthesized, [UnTok(op)] + Group(wrap, Render(t, mode, x)))
    case Binary(l, op, r) =>
      var wrapLeft := mode == Canonical && BinaryChildNeedsParens(t, op, l, LeftSide);
      var wrapRight := mode == Canonical && BinaryChildNeedsParens(t, op, r, RightSide);
      Group(mode == Parenthesized,
        Group(wrapLeft, Render(t, mode, l)) + ([BinTok(op)] + Group(wrapRight, Render(t, mode, r))))
  }

  /** The concrete tree that is written. */
  function GroupTree(wrap: bool, c: Cst): Cst { if wrap then CParen(c) else c }

  function Concrete(t: Table, mode: Mode, e: Expr): Cst
    decreases e, 0
  {
    match e
    case Lit(n) => CLit(n)
    case Var(id) => CVar(id)
    case Unary(op, x) => GroupTree(mode == Parenthesized, CUn(op, Operand(t, mode, op, x)))
    case Binary(l, op, r) =>
      GroupTree(mode == Parenthesized, CBin(Child(t, mode, op, l, LeftSide), op, Child(t, mode, op, r, RightSide)))
  }

  function Operand(t: Table, mode: Mode, op: UnOp, x: Expr): Cst
    decreases x, 1
  {
    GroupTree(mode == Canonical && PrefixOperandNeedsParens(t, op, x), Concrete(t, mode, x))
  }

  function Child(t: Table, mode: Mode, op: BinOp, x: Expr, side: Side): Cst
    decreases x, 1
  {
    GroupTree(mode == Canonical && BinaryChildNeedsParens(t, op, x, side), Concrete(t, mode, x))
  }

  lemma {:induction false} RendersConcrete(t: Table, mode: Mode, e: Expr)
    ensures Yield(Concrete(t, mode, e)) == Render(t, mode, e) && Strip(Concrete(t, mode, e)) == e
  {
    match e
    case Unary(op, x) =>
      RendersConcrete(t, mode, x);
      Grouped(mode == Canonical && PrefixOperandNeedsParens(t, op, x), Concrete(t, mode, x));
      Grouped(mode == Parenthesized, CUn(op, Operand(t, mode, op, x)));
    case Binary(l, op, r) =>
      RendersConcrete(t, mode, l);
      RendersConcrete(t, mode, r);
      Grouped(mode == Canonical && BinaryChildNeedsParens(t, op, l, LeftSide), Concrete(t, mode, l));
      Grouped(mode == Canonical && BinaryChildNeedsParens(t, op, r, RightSide), Concrete(t, mode, r));
      Grouped(mode == Parenthesized, CBin(Child(t, mode, op, l, LeftSide), op, Child(t, mode, op, r, RightSide)));
    case _ =>
  }

  lemma Grouped(wrap: bool, c: Cst)
    ensures Yield(GroupTree(wrap, c)) == Group(wrap, Yield(c)) && Strip(GroupTree(wrap, c)) == Strip(c)
  {}

  // ----- One tree for its tokens and its meaning -----

  predicate IsParen(tok: Tok) { tok == LParen || tok == RParen }

  function Plain(toks: seq<Tok>): nat { if toks == [] then 0 else (if IsParen(toks[0]) then 0 else 1) + Plain(toks[1..]) }

  function Depth(toks: seq<Tok>): int {
    if toks == [] then 0
    else (if toks[0] == LParen then 1 else if toks[0] == RParen then -1 else 0) + Depth(toks[1..])
  }

  lemma {:induction false} CountsAppend(a: seq<Tok>, b: seq<Tok>)
    ensures Plain(a + b) == Plain(a) + Plain(b) && Depth(a + b) == Depth(a) + Depth(b)
  {
    if a == [] {
      assert a + b == b;
    } else {
      CountsAppend(a[1..], b);
      assert (a + b)[1..] == a[1..] + b;
    }
  }

  function Size(e: Expr): nat {
    match e
    case Unary(_, x) => 1 + Size(x)
    case Binary(l, _, r) => Size(l) + 1 + Size(r)
    case _ => 1
  }

  lemma CountsAround(a: seq<Tok>, tok: Tok, b: seq<Tok>)
    requires !IsParen(tok)
    ensures Plain(a + ([tok] + b)) == Plain(a) + 1 + Plain(b) && Depth(a + ([tok] + b)) == Depth(a) + Depth(b)
  {
    CountsAppend(a, [tok] + b);
    assert ([tok] + b)[1..] == b;
  }

  lemma CountsInside(a: seq<Tok>)
    ensures Plain([LParen] + (a + [RParen])) == Plain(a) && Depth([LParen] + (a + [RParen])) == Depth(a)
  {
    CountsAppend(a, [RParen]);
    assert ([LParen] + (a + [RParen]))[1..] == a + [RParen];
    assert [RParen][1..] == [];
  }

  /** A tree's tokens count its operators and operands, and its parentheses balance. */
  lemma {:induction false} YieldCounts(c: Cst)
    ensures Plain(Yield(c)) == Size(Strip(c)) && Depth(Yield(c)) == 0
  {
    match c
    case CUn(op, x) =>
      YieldCounts(x);
      CountsAround([], UnTok(op), Yield(x));
      assert [] + ([UnTok(op)] + Yield(x)) == Yield(c);
    case CBin(l, op, r) =>
      YieldCounts(l);
      YieldCounts(r);
      CountsAround(Yield(l), BinTok(op), Yield(r));
    case CParen(x) =>
      YieldCounts(x);
      CountsInside(Yield(x));
    case _ =>
  }

  /** Tokens split at the n-th that is no parenthesis in one way only. */
  lemma SplitsOnce(a: seq<Tok>, x: Tok, b: seq<Tok>, a': seq<Tok>, x': Tok, b': seq<Tok>)
    requires a + ([x] + b) == a' + ([x'] + b') && Plain(a) == Plain(a') && !IsParen(x) && !IsParen(x')
    ensures a == a' && b == b'
  {
    var all := a + ([x] + b);
    if |a| < |a'| { PlainGrows(all, |a|, |a'|); }
    if |a'| < |a| { PlainGrows(all, |a'|, |a|); }
    assert a == all[..|a|] && a' == all[..|a'|];
    assert b == all[|a| + 1..] && b' == all[|a'| + 1..];
  }

  lemma PlainGrows(all: seq<Tok>, i: nat, j: nat)
    requires i < j <= |all| && !IsParen(all[i])
    ensures Plain(all[..i]) < Plain(all[..j])
  {
    assert all[..j] == all[..i] + ([all[i]] + all[i + 1..j]);
    CountsAppend(all[..i], [all[i]] + all[i + 1..j]);
    CountsAppend([all[i]], all[i + 1..j]);
  }

  lemma OneDeeper(toks: seq<Tok>, a: seq<Tok>, tok: Tok, b: seq<Tok>)
    requires toks == a + ([tok] + b)
    ensures [LParen] + (toks + [RParen]) == ([LParen] + a) + ([tok] + (b + [RParen]))
    ensures Plain([LParen] + a) == Plain(a) && Depth([LParen] + a) == Depth(a) + 1
  {
    assert ([LParen] + a)[1..] == a;
  }

  /** The tokens before a tree's operator hold its left operand, as deep as its outer parentheses. */
  lemma {:induction false} BeforeOperator(c: Cst) returns (a: seq<Tok>, b: seq<Tok>, depth: nat)
    requires Strip(c).Binary?
    ensures Yield(c) == a + ([BinTok(Strip(c).bop)] + b)
    ensures Plain(a) == Size(Strip(c).left) && Depth(a) == depth && (depth > 0 <==> c.CParen?)
  {
    if c.CParen? {
      var a', b', depth' := BeforeOperator(c.x);
      OneDeeper(Yield(c.x), a', BinTok(Strip(c).bop), b');
      a, b, depth := [LParen] + a', b' + [RParen], depth' + 1;
    } else {
      YieldCounts(c.l);
      a, b, depth := Yield(c.l), Yield(c.r), 0;
    }
  }

  /** Where a binary tree's operator stands tells whether it is in parentheses. */
  lemma SameGrouping(c: Cst, d: Cst)
    requires Yield(c) == Yield(d) && Strip(c) == Strip(d) && Strip(c).Binary?
    ensures c.CParen? <==> d.CParen?
  {
    var a, b, depth := BeforeOperator(c);
    var a', b', depth' := BeforeOperator(d);
    var tok := BinTok(Strip(c).bop);
    SplitsOnce(a, tok, b, a', tok, b');
  }

  lemma SameInside(a: seq<Tok>, b: seq<Tok>)
    requires [LParen] + (a + [RParen]) == [LParen] + (b + [RParen])
    ensures a == b
  {
    assert a == ([LParen] + (a + [RParen]))[1..|a| + 1] && b == ([LParen] + (b + [RParen]))[1..|b| + 1];
  }

  /** So a tree is determined by its tokens and what it means. */
  lemma {:induction false} OneTree(c: Cst, d: Cst)
    requires Yield(c) == Yield(d) && Strip(c) == Strip(d)
    ensures c == d
    decreases c
  {
    if Strip(c).Binary? { SameGrouping(c, d); }
    match c
    case CParen(x) =>
      assert Yield(c)[0] == LParen;
      assert d.CParen?;
      SameInside(Yield(x), Yield(d.x));
      OneTree(x, d.x);
    case CUn(op, x) =>
      assert Yield(c)[0] == UnTok(op);
      assert d.CUn?;
      assert Yield(x) == Yield(c)[1..] && Yield(d.x) == Yield(d)[1..];
      OneTree(x, d.x);
    case CBin(l, op, r) =>
      YieldCounts(l);
      YieldCounts(d.l);
      SplitsOnce(Yield(l), BinTok(op), Yield(r), Yield(d.l), BinTok(op), Yield(d.r));
      OneTree(l, d.l);
      OneTree(r, d.r);
    case _ =>
      assert !d.CParen?;
  }

  /** A rendering parses back to its tree exactly when the concrete tree written is one of the grammar's. */
  lemma RoundTripsIfGood(t: Table, mode: Mode, e: Expr)
    ensures Parse(t, Render(t, mode, e)) == Ok(e) <==> Good(t, Concrete(t, mode, e))
  {
    var c := Concrete(t, mode, e);
    RendersConcrete(t, mode, e);
    ParsesExactlyGood(t, Render(t, mode, e), e);
    if Parse(t, Render(t, mode, e)) == Ok(e) {
      var d :| Yield(d) == Render(t, mode, e) && Strip(d) == e && Good(t, d);
      OneTree(c, d);
    }
  }

  // ----- The parenthesized mode -----

  /** Wrapping every operator round-trips for every tree under every table. */
  lemma ParenthesizedRoundTrips(t: Table, e: Expr)
    ensures Parse(t, Render(t, Parenthesized, e)) == Ok(e)
  {
    ParenthesizedIsGood(t, e);
    RoundTripsIfGood(t, Parenthesized, e);
  }

  lemma {:induction false} ParenthesizedIsGood(t: Table, e: Expr)
    ensures Good(t, Concrete(t, Parenthesized, e))
    ensures !Concrete(t, Parenthesized, e).CBin? && !Concrete(t, Parenthesized, e).CUn?
  {
    match e
    case Unary(_, x) => ParenthesizedIsGood(t, x);
    case Binary(l, _, r) =>
      ParenthesizedIsGood(t, l);
      ParenthesizedIsGood(t, r);
    case _ =>
  }

  // ----- The canonical mode -----

  ghost predicate RegularPair(a: Bp, b: Bp) {
    && (a.left == b.left ==> a == b)
    && a.right != b.left
    && (a.right > b.left ==> a.left >= b.left)
    && (a.left >= b.right ==> a.right >= b.right)
  }

  /** What a sensible table keeps to: operators of one left power form one level, with an inner power of its
      own that no other operator's left power equals, and the levels do not interleave. */
  ghost predicate Regular(t: Table) {
    && (forall a, b :: RegularPair(t.binary(a), t.binary(b)))
    && (forall a, u :: t.binary(a).left >= t.prefix(u) ==> t.binary(a).right >= t.prefix(u))
  }

  lemma StandardRow(op: BinOp)
    ensures var bp := StandardBinary(op);
      && bp.left in {10, 20, 40, 50, 60, 71}
      && bp == Bp(bp.left, if bp.left == 71 then 70 else bp.left + 1, if bp.left == 71 then Right else if bp.left == 40 then NonAssoc else Left)
  {}

  lemma StandardIsRegular()
    ensures Regular(STANDARD)
  {
    forall op ensures STANDARD.binary(op) == StandardBinary(op) {}
    forall a, b ensures RegularPair(StandardBinary(a), StandardBinary(b)) {
      StandardRow(a);
      StandardRow(b);
    }
    forall a, u ensures StandardBinary(a).left >= StandardPrefix(u) ==> StandardBinary(a).right >= StandardPrefix(u) {
      StandardRow(a);
    }
    assert forall a, b :: RegularPair(STANDARD.binary(a), STANDARD.binary(b));
  }

  /** No prefix operator left open at the right end of e's rendering would take a following operator of
      this left power as part of its operand. */
  predicate EndsClear(t: Table, e: Expr, level: nat) {
    match e
    case Unary(op, x) => t.prefix(op) > level && (PrefixOperandNeedsParens(t, op, x) || EndsClear(t, x, level))
    case Binary(_, op, r) => BinaryChildNeedsParens(t, op, r, RightSide) || EndsClear(t, r, level)
    case _ => true
  }

  /** So it is for every left operand written bare. */
  predicate NothingSwallowed(t: Table, e: Expr) {
    match e
    case Unary(_, x) => NothingSwallowed(t, x)
    case Binary(l, op, r) =>
      && NothingSwallowed(t, l) && NothingSwallowed(t, r)
      && (BinaryChildNeedsParens(t, op, l, LeftSide) || EndsClear(t, l, t.binary(op).left))
    case _ => true
  }

  lemma {:induction false} LeftEdgeFits(t: Table, e: Expr, min: nat)
    requires Regular(t) && (e.Binary? ==> t.binary(e.bop).left >= min)
    ensures Fits(t, Concrete(t, Canonical, e), min)
  {
    if e.Binary? && !BinaryChildNeedsParens(t, e.bop, e.left, LeftSide) {
      if e.left.Binary? { assert RegularPair(t.binary(e.left.bop), t.binary(e.bop)); }
      LeftEdgeFits(t, e.left, min);
    }
  }

  lemma {:induction false} RightEdgeClear(t: Table, e: Expr, level: nat)
    requires Regular(t) && (e.Binary? ==> t.binary(e.bop).right > level)
    ensures Clear(t, Concrete(t, Canonical, e), level) <==> EndsClear(t, e, level)
  {
    match e
    case Unary(op, x) =>
      if t.prefix(op) > level && !PrefixOperandNeedsParens(t, op, x) { RightEdgeClear(t, x, level); }
    case Binary(_, op, r) =>
      if !BinaryChildNeedsParens(t, op, r, RightSide) {
        if r.Binary? { assert RegularPair(t.binary(r.bop), t.binary(op)); }
        RightEdgeClear(t, r, level);
      }
    case _ =>
  }

  /** A left operand is written as the grammar wants it exactly when it swallows nothing, */
  lemma LeftChildGood(t: Table, l: Expr, op: BinOp)
    requires Regular(t)
    ensures var c := Child(t, Canonical, op, l, LeftSide);
      && !Chains(t, c, op)
      && (Clear(t, c, t.binary(op).left) <==> BinaryChildNeedsParens(t, op, l, LeftSide) || EndsClear(t, l, t.binary(op).left))
  {
    if !BinaryChildNeedsParens(t, op, l, LeftSide) {
      RendersConcrete(t, Canonical, l);
      if l.Binary? { assert RegularPair(t.binary(l.bop), t.binary(op)); }
      RightEdgeClear(t, l, t.binary(op).left);
    }
  }

  /** and a right operand always. */
  lemma RightChildFits(t: Table, op: BinOp, r: Expr)
    requires Regular(t)
    ensures Fits(t, Child(t, Canonical, op, r, RightSide), t.binary(op).right)
  {
    if !BinaryChildNeedsParens(t, op, r, RightSide) { LeftEdgeFits(t, r, t.binary(op).right); }
  }

  lemma OperandFits(t: Table, op: UnOp, x: Expr)
    requires Regular(t)
    ensures Fits(t, Operand(t, Canonical, op, x), t.prefix(op))
  {
    if !PrefixOperandNeedsParens(t, op, x) { LeftEdgeFits(t, x, t.prefix(op)); }
  }

  lemma {:induction false} CanonicalIsGood(t: Table, e: Expr)
    requires Regular(t)
    ensures Good(t, Concrete(t, Canonical, e)) <==> NothingSwallowed(t, e)
  {
    match e
    case Unary(op, x) =>
      CanonicalIsGood(t, x);
      OperandFits(t, op, x);
    case Binary(l, op, r) =>
      CanonicalIsGood(t, l);
      CanonicalIsGood(t, r);
      LeftChildGood(t, l, op);
      RightChildFits(t, op, r);
    case _ =>
  }

  /** Rendering with only the parentheses the table demands round-trips exactly when no bare left operand
      ends in a prefix operator that would swallow what follows it. */
  lemma CanonicalRoundTrips(t: Table, e: Expr)
    requires Regular(t)
    ensures Parse(t, Render(t, Canonical, e)) == Ok(e) <==> NothingSwallowed(t, e)
  {
    CanonicalIsGood(t, e);
    RoundTripsIfGood(t, Canonical, e);
  }

  /** It does swallow in `(a * NOT b) + c`, written `a * NOT b + c`. */
  lemma NotSwallows(a: nat, b: nat, c: nat)
    ensures var e := Binary(Binary(Var(a), Mul, Unary(Not, Var(b))), Add, Var(c));
      && Render(STANDARD, Canonical, e) == [Ident(a), Star, Bang, Ident(b), Plus, Ident(c)]
      && Parse(STANDARD, Render(STANDARD, Canonical, e)) != Ok(e)
  {
    var n := Unary(Not, Var(b));
    var m := Binary(Var(a), Mul, n);
    var e := Binary(m, Add, Var(c));
    assert Render(STANDARD, Canonical, n) == [Bang, Ident(b)];
    assert Render(STANDARD, Canonical, m) == [Ident(a)] + ([Star] + [Bang, Ident(b)]);
    assert !EndsClear(STANDARD, m, 50) by { assert !EndsClear(STANDARD, n, 50); }
    StandardIsRegular();
    CanonicalRoundTrips(STANDARD, e);
  }

  predicate BindsTight(t: Table, e: Expr, u: UnOp) {
    match e
    case Unary(op, x) => op != u && BindsTight(t, x, u)
    case Binary(l, _, r) => BindsTight(t, l, u) && BindsTight(t, r, u)
    case _ => true
  }

  /** Without `NOT` every tree round-trips under the standard table. */
  lemma SignsRoundTrip(e: Expr)
    requires BindsTight(STANDARD, e, Not)
    ensures Parse(STANDARD, Render(STANDARD, Canonical, e)) == Ok(e)
  {
    StandardIsRegular();
    SignsClear(e);
    CanonicalRoundTrips(STANDARD, e);
  }

  lemma {:induction false} SignsClear(e: Expr)
    requires BindsTight(STANDARD, e, Not)
    ensures NothingSwallowed(STANDARD, e)
    ensures forall op :: EndsClear(STANDARD, e, StandardBinary(op).left)
  {
    match e
    case Unary(op, x) => SignsClear(x);
    case Binary(l, op, r) =>
      SignsClear(l);
      SignsClear(r);
    case _ =>
  }

  // ----- No more parentheses than needed -----

  function Parens(c: Cst): nat {
    match c
    case CUn(_, x) => Parens(x)
    case CBin(l, _, r) => Parens(l) + Parens(r)
    case CParen(x) => 1 + Parens(x)
    case _ => 0
  }

  function Operators(e: Expr): nat {
    match e
    case Unary(_, x) => 1 + Operators(x)
    case Binary(l, _, r) => Operators(l) + 1 + Operators(r)
    case _ => 0
  }

  /** How often a sign is the operand of a sign: the grammar reads `--a`, but a tokenizer takes it for a comment. */
  function SignPairs(e: Expr): nat {
    match e
    case Unary(op, x) => (if op != Not && x.Unary? && x.op != Not then 1 else 0) + SignPairs(x)
    case Binary(l, _, r) => SignPairs(l) + SignPairs(r)
    case _ => 0
  }

  lemma {:induction false} YieldLength(c: Cst)
    ensures |Yield(c)| == Size(Strip(c)) + 2 * Parens(c)
  {
    match c
    case CUn(_, x) => YieldLength(x);
    case CBin(l, _, r) =>
      YieldLength(l);
      YieldLength(r);
    case CParen(x) => YieldLength(x);
    case _ =>
  }

  /** An operator's associativity says what its powers do, and no prefix operator ties with a binary one. */
  ghost predicate Agrees(t: Table) {
    && (forall op :: t.binary(op).assoc == Right <==> t.binary(op).right < t.binary(op).left)
    && forall op, u :: t.binary(op).left != t.prefix(u)
  }

  lemma StandardAgrees()
    ensures Agrees(STANDARD)
  {
    forall op, u
      ensures STANDARD.binary(op).assoc == Right <==> STANDARD.binary(op).right < STANDARD.binary(op).left
      ensures STANDARD.binary(op).left != STANDARD.prefix(u)
    {
      StandardRow(op);
    }
  }

  /** In a good tree a left operand that the renderer would wrap is in parentheses, */
  lemma {:induction false} LeftIsWrapped(t: Table, l: Cst, op: BinOp)
    requires Regular(t) && Agrees(t) && Clear(t, l, t.binary(op).left) && !Chains(t, l, op)
    ensures BinaryChildNeedsParens(t, op, Strip(l), LeftSide) ==> l.CParen?
  {
    if l.CBin? { assert RegularPair(t.binary(l.bop), t.binary(op)); }
  }

  /** and so is a right operand. */
  lemma {:induction false} RightIsWrapped(t: Table, op: BinOp, r: Cst)
    requires Regular(t) && Agrees(t) && Fits(t, r, t.binary(op).right)
    ensures BinaryChildNeedsParens(t, op, Strip(r), RightSide) ==> r.CParen?
  {
    if r.CBin? { assert RegularPair(t.binary(op), t.binary(op)); }
  }

  /** The canonical tree of what c means has no more parentheses than c, but for the pairs around a sign under a
      sign, and fewer if c is in parentheses. */
  ghost predicate Fewest(t: Table, c: Cst) {
    Parens(Concrete(t, Canonical, Strip(c))) + (if c.CParen? then 1 else 0) <= Parens(c) + SignPairs(Strip(c))
  }

  lemma {:induction false} FewestBeside(t: Table, c: Cst, op: BinOp, side: Side)
    requires Fewest(t, c) && (BinaryChildNeedsParens(t, op, Strip(c), side) ==> c.CParen?)
    ensures Parens(Child(t, Canonical, op, Strip(c), side)) <= Parens(c) + SignPairs(Strip(c))
  {}

  /** The operand of a prefix operator is in parentheses too, but for a sign under a sign. */
  lemma {:induction false} FewestBelow(t: Table, op: UnOp, x: Cst)
    requires Fewest(t, x) && Fits(t, x, t.prefix(op))
    ensures Parens(Operand(t, Canonical, op, Strip(x))) <= Parens(x) + SignPairs(Unary(op, Strip(x)))
  {}

  /** No good tree of an expression has fewer parentheses than the canonical one, but for those pairs. */
  lemma {:induction false} FewestParens(t: Table, c: Cst)
    requires Regular(t) && Agrees(t) && Good(t, c)
    ensures Fewest(t, c)
  {
    match c
    case CParen(x) => FewestParens(t, x);
    case CUn(op, x) =>
      FewestParens(t, x);
      FewestBelow(t, op, x);
    case CBin(l, op, r) =>
      FewestParens(t, l);
      LeftIsWrapped(t, l, op);
      FewestBeside(t, l, op, LeftSide);
      FewestParens(t, r);
      RightIsWrapped(t, op, r);
      FewestBeside(t, r, op, RightSide);
    case _ =>
  }

  /** So nothing shorter parses to an expression than its canonical rendering, but for those pairs. */
  lemma ShortestRendering(t: Table, toks: seq<Tok>, e: Expr)
    requires Regular(t) && Agrees(t) && Parse(t, toks) == Ok(e)
    ensures |Render(t, Canonical, e)| <= |toks| + 2 * SignPairs(e)
  {
    ParsesExactlyGood(t, toks, e);
    var c :| Yield(c) == toks && Strip(c) == e && Good(t, c);
    FewestParens(t, c);
    YieldLength(c);
    YieldLength(Concrete(t, Canonical, e));
    RendersConcrete(t, Canonical, e);
  }

  // ----- No fewer either -----

  /** An expression written without any parentheses. */
  function Bare(e: Expr): Cst {
    match e
    case Lit(n) => CLit(n)
    case Var(id) => CVar(id)
    case Unary(op, x) => CUn(op, Bare(x))
    case Binary(l, op, r) => CBin(Bare(l), op, Bare(r))
  }

  lemma {:induction false} BareHasNone(e: Expr)
    ensures Parens(Bare(e)) == 0 && Strip(Bare(e)) == e
  {
    match e
    case Unary(_, x) => BareHasNone(x);
    case Binary(l, _, r) =>
      BareHasNone(l);
      BareHasNone(r);
    case _ =>
  }

  lemma {:induction false} NoneIsBare(c: Cst)
    requires Parens(c) == 0
    ensures c == Bare(Strip(c))
  {
    match c
    case CUn(_, x) => NoneIsBare(x);
    case CBin(l, _, r) =>
      NoneIsBare(l);
      NoneIsBare(r);
    case _ =>
  }

  /** An expression that can be read without parentheses is written without them. */
  lemma BareWhenReadable(t: Table, e: Expr)
    requires Regular(t) && Agrees(t) && SignPairs(e) == 0 && Parse(t, Yield(Bare(e))) == Ok(e)
    ensures Render(t, Canonical, e) == Yield(Bare(e))
  {
    var c := Concrete(t, Canonical, e);
    BareHasNone(e);
    YieldLength(Bare(e));
    YieldLength(c);
    RendersConcrete(t, Canonical, e);
    ShortestRendering(t, Yield(Bare(e)), e);
    NoneIsBare(c);
  }

  /** Of two operators every arrangement reads back, */
  lemma {:induction false} TwoOperatorsRoundTrip(t: Table, e: Expr)
    requires Regular(t) && Agrees(t) && Operators(e) <= 2
    ensures Parse(t, Render(t, Canonical, e)) == Ok(e)
  {
    TwoSwallowNothing(t, e);
    CanonicalRoundTrips(t, e);
  }

  lemma {:induction false} OneSwallowsNothing(t: Table, e: Expr)
    requires Operators(e) <= 1
    ensures NothingSwallowed(t, e)
  {}

  lemma {:induction false} TwoSwallowNothing(t: Table, e: Expr)
    requires Regular(t) && Agrees(t) && Operators(e) <= 2
    ensures NothingSwallowed(t, e)
  {
    match e
    case Unary(_, x) => OneSwallowsNothing(t, x);
    case Binary(l, op, r) =>
      OneSwallowsNothing(t, l);
      OneSwallowsNothing(t, r);
      assert BinaryChildNeedsParens(t, op, l, LeftSide) || EndsClear(t, l, t.binary(op).left);
    case _ =>
  }

  /** so of two operators that are not both signs the second is in parentheses exactly when it would be misread
      without them. */
  lemma {:induction false} ParensWhereMisread(t: Table, e: Expr)
    requires Regular(t) && Agrees(t) && Operators(e) <= 2 && SignPairs(e) == 0
    ensures Render(t, Canonical, e) == Yield(Bare(e)) <==> Parse(t, Yield(Bare(e))) == Ok(e)
  {
    TwoOperatorsRoundTrip(t, e);
    if Parse(t, Yield(Bare(e))) == Ok(e) { BareWhenReadable(t, e); }
  }

  /** No two signs are written one right after the other. */
  predicate SignsApart(c: Cst) {
    match c
    case CUn(op, x) => !(op != Not && x.CUn? && x.op != Not) && SignsApart(x)
    case CBin(l, _, r) => SignsApart(l) && SignsApart(r)
    case CParen(x) => SignsApart(x)
    case _ => true
  }

  lemma {:induction false} SignsStandApart(t: Table, mode: Mode, e: Expr)
    ensures SignsApart(Concrete(t, mode, e))
  {
    match e
    case Unary(_, x) => SignsStandApart(t, mode, x);
    case Binary(l, _, r) =>
      SignsStandApart(t, mode, l);
      SignsStandApart(t, mode, r);
    case _ =>
  }

  /** The parenthesized mode has one pair an operator. */
  lemma {:induction false} ParenthesizedCounts(t: Table, e: Expr)
    ensures Parens(Concrete(t, Parenthesized, e)) == Operators(e)
  {
    match e
    case Unary(_, x) => ParenthesizedCounts(t, x);
    case Binary(l, _, r) =>
      ParenthesizedCounts(t, l);
      ParenthesizedCounts(t, r);
    case _ =>
  }
}
