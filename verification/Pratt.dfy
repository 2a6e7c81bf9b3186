/** The two expression parsers of bench/benches/iterative_pratt_ref/mod.rs: recursive precedence
    climbing, and the same call graph on an explicit stack. Both take the binding powers as a table. */
module Pratt {
  import opened Wrappers

  // ----- Tokens and trees -----

  datatype Tok =
    | Num(n: int) | Ident(id: nat)
    | Plus | Minus | Star | Slash | Caret | Eq | Lt | Gt | Amp | Pipe | Bang
    | LParen | RParen

  datatype BinOp = Or | And | Equal | Less | Greater | Add | Sub | Mul | Div | Pow
  datatype UnOp = Neg | Pos | Not

  /** Parentheses leave no node. */
  datatype Expr = Lit(n: int) | Var(id: nat) | Unary(op: UnOp, operand: Expr) | Binary(left: Expr, bop: BinOp, right: Expr)

  datatype ParseError = ExpectedExpr | ExpectedRParen | NonAssocChain | TrailingTokens

  datatype Result<+T> = Ok(value: T) | Err(error: ParseError)

  // ----- Binding powers -----

  datatype Assoc = Left | Right | NonAssoc
  datatype Bp = Bp(left: nat, right: nat, assoc: Assoc)

  /** A binding-power table: one row per operator. */
  datatype Table = Table(binary: BinOp -> Bp, prefix: UnOp -> nat)

  function StandardBinary(op: BinOp): Bp {
    match op
    case Or => Bp(10, 11, Left)
    case And => Bp(20, 21, Left)
    case Equal => Bp(40, 41, NonAssoc)
    case Less => Bp(40, 41, NonAssoc)
    case Greater => Bp(40, 41, NonAssoc)
    case Add => Bp(50, 51, Left)
    case Sub => Bp(50, 51, Left)
    case Mul => Bp(60, 61, Left)
    case Div => Bp(60, 61, Left)
    case Pow => Bp(71, 70, Right)
  }

  function StandardPrefix(op: UnOp): nat { if op == Not then 30 else 80 }

  const STANDARD: Table := Table(StandardBinary, StandardPrefix)

  function InfixOp(tok: Tok): Option<BinOp> {
    match tok
    case Pipe => Some(Or)
    case Amp => Some(And)
    case Eq => Some(Equal)
    case Lt => Some(Less)
    case Gt => Some(Greater)
    case Plus => Some(Add)
    case Minus => Some(Sub)
    case Star => Some(Mul)
    case Slash => Some(Div)
    case Caret => Some(Pow)
    case _ => None
  }

  function PrefixOp(tok: Tok): Option<UnOp> {
    match tok
    case Minus => Some(Neg)
    case Plus => Some(Pos)
    case Bang => Some(Not)
    case _ => None
  }

  predicate ChainsNonAssoc(t: Table, lhs: Expr, level: nat) {
    lhs.Binary? && t.binary(lhs.bop).assoc == NonAssoc && t.binary(lhs.bop).left == level
  }

  // ----- What the recursive parser computes -----

  /** An expression and the tokens after it. */
  datatype Parsed = Parsed(e: Expr, rest: seq<Tok>)
  datatype Primary = Primary(e: Expr, grouped: bool, rest: seq<Tok>)

  function ExprBp(t: Table, toks: seq<Tok>, min: nat): (r: Result<Parsed>)
    ensures r.Ok? ==> |r.value.rest| < |toks|
    decreases |toks|, 2
  {
    match Prefix(t, toks)
    case Err(error) => Err(error)
    case Ok(p) => Climb(t, p.e, p.grouped, p.rest, min)
  }

  function Prefix(t: Table, toks: seq<Tok>): (r: Result<Primary>)
    ensures r.Ok? ==> |r.value.rest| < |toks|
    decreases |toks|, 1
  {
    if toks == [] then Err(ExpectedExpr)
    else
      var tok := toks[0];
      if tok.Num? then Ok(Primary(Lit(tok.n), false, toks[1..]))
      else if tok.Ident? then Ok(Primary(Var(tok.id), false, toks[1..]))
      else if PrefixOp(tok).Some? then
        var op := PrefixOp(tok).value;
        match ExprBp(t, toks[1..], t.prefix(op))
        case Err(error) => Err(error)
        case Ok(x) => Ok(Primary(Unary(op, x.e), false, x.rest))
      else if tok == LParen then
        match ExprBp(t, toks[1..], 0)
        case Err(error) => Err(error)
        case Ok(x) => if x.rest == [] || x.rest[0] != RParen then Err(ExpectedRParen) else Ok(Primary(x.e, true, x.rest[1..]))
      else Err(ExpectedExpr)
  }

  /** The operator the climb takes next, if the next token is one that binds tightly enough. */
  function NextOp(t: Table, toks: seq<Tok>, min: nat): Option<BinOp> {
    if toks == [] || InfixOp(toks[0]).None? || t.binary(InfixOp(toks[0]).value).left < min then None
    else InfixOp(toks[0])
  }

  function Climb(t: Table, lhs: Expr, grouped: bool, toks: seq<Tok>, min: nat): (r: Result<Parsed>)
    ensures r.Ok? ==> |r.value.rest| <= |toks|
    decreases |toks|, 0
  {
    match NextOp(t, toks, min)
    case None => Ok(Parsed(lhs, toks))
    case Some(op) =>
      var bp := t.binary(op);
      if bp.assoc == NonAssoc && !grouped && ChainsNonAssoc(t, lhs, bp.left) then Err(NonAssocChain)
      else
        match ExprBp(t, toks[1..], bp.right)
        case Err(error) => Err(error)
        case Ok(rhs) => Climb(t, Binary(lhs, op, rhs.e), false, rhs.rest, min)
  }

  function Parse(t: Table, toks: seq<Tok>): Result<Expr> {
    match ExprBp(t, toks, 0)
    case Err(error) => Err(error)
    case Ok(x) => if x.rest != [] then Err(TrailingTokens) else Ok(x.e)
  }

  // ----- The recursive parser -----

  class Rec {
    const t: Table
    const toks: seq<Tok>
    var pos: nat

    constructor (t: Table, toks: seq<Tok>)
      ensures this.t == t && this.toks == toks && pos == 0
    {
      this.t := t;
      this.toks := toks;
      pos := 0;
    }

    function Cur(): Option<Tok>
      reads this
    {
      if pos < |toks| then Some(toks[pos]) else None
    }

    method ExprAt(min: nat) returns (r: Result<Expr>)
      requires pos <= |toks|
      modifies this
      ensures old(pos) <= pos <= |toks|
      ensures match ExprBp(t, toks[old(pos)..], min)
        case Err(error) => r == Err(error)
        case Ok(x) => r == Ok(x.e) && toks[pos..] == x.rest
      decreases |toks| - pos, 1
    {
      var p := PrefixAt();
      if p.Err? {
        return Err(p.error);
      }
      var lhs, grouped := p.value.0, p.value.1;
      ghost var climb := Climb(t, lhs, grouped, toks[pos..], min);
      while pos < |toks|
        invariant old(pos) < pos <= |toks|
        invariant Climb(t, lhs, grouped, toks[pos..], min) == climb
        decreases |toks| - pos
      {
        var op := InfixOp(toks[pos]);
        if op.None? {
          break;
        }
        var bp := t.binary(op.value);
        if bp.left < min {
          break;
        }
        if bp.assoc == NonAssoc && !grouped && ChainsNonAssoc(t, lhs, bp.left) {
          return Err(NonAssocChain);
        }
        assert toks[pos..][1..] == toks[pos + 1..];
        pos := pos + 1;
        var rhs := ExprAt(bp.right);
        if rhs.Err? {
          return Err(rhs.error);
        }
        lhs := Binary(lhs, op.value, rhs.value);
        grouped := false;
      }
      r := Ok(lhs);
    }

    method PrefixAt() returns (r: Result<(Expr, bool)>)
      requires pos <= |toks|
      modifies this
      ensures old(pos) <= pos <= |toks|
      ensures match Prefix(t, toks[old(pos)..])
        case Err(error) => r == Err(error)
        case Ok(p) => r == Ok((p.e, p.grouped)) && toks[pos..] == p.rest
      decreases |toks| - pos, 0
    {
      if pos == |toks| {
        return Err(ExpectedExpr);
      }
      var tok := toks[pos];
      assert toks[pos..][1..] == toks[pos + 1..];
      if tok.Num? {
        pos := pos + 1;
        return Ok((Lit(tok.n), false));
      } else if tok.Ident? {
        pos := pos + 1;
        return Ok((Var(tok.id), false));
      } else if PrefixOp(tok).Some? {
        var op := PrefixOp(tok).value;
        pos := pos + 1;
        var operand := ExprAt(t.prefix(op));
        if operand.Err? {
          return Err(operand.error);
        }
        return Ok((Unary(op, operand.value), false));
      } else if tok == LParen {
        pos := pos + 1;
        var inner := ExprAt(0);
        if inner.Err? {
          return Err(inner.error);
        }
        if Cur() != Some(RParen) {
          return Err(ExpectedRParen);
        }
        assert toks[pos..][1..] == toks[pos + 1..];
        pos := pos + 1;
        return Ok((inner.value, true));
      }
      return Err(ExpectedExpr);
    }
  }

  method RecParse(t: Table, toks: seq<Tok>) returns (r: Result<Expr>)
    ensures r == Parse(t, toks)
  {
    var p := new Rec(t, toks);
    assert toks[0..] == toks;
    r := p.ExprAt(0);
    if r.Ok? && p.pos != |toks| {
      r := Err(TrailingTokens);
    }
  }

  // ----- The explicit stack -----

  datatype Frame =
    | BeginLoop(min: nat)
    | BinaryRhs(lhs: Expr, op: BinOp, min: nat)
    | PrefixWrap(uop: UnOp)
    | ParenClose

  datatype State =
    | StartExpr(min: nat)
    | RunLoop(lhs: Expr, grouped: bool, min: nat)
    | Produce(val: Expr, grouped: bool)

  /** The frames under an expression being parsed: the top one, last, is what awaits its value, and a
      prefix operator or a parenthesis stands on the loop that awaits the primary it makes. */
  ghost predicate AwaitsExpr(stack: seq<Frame>) {
    stack != [] ==>
      var top, below := stack[|stack| - 1], stack[..|stack| - 1];
      match top
      case BeginLoop(_) => false
      case BinaryRhs(_, _, _) => AwaitsExpr(below)
      case _ => AwaitsPrimary(below)
  }

  ghost predicate AwaitsPrimary(stack: seq<Frame>) {
    stack != [] && stack[|stack| - 1].BeginLoop? && AwaitsExpr(stack[..|stack| - 1])
  }

  /** What the rest of the parse makes of a finished value: the pending calls, outermost first. */
  ghost function Resume(t: Table, stack: seq<Frame>, val: Expr, grouped: bool, toks: seq<Tok>): Result<Expr>
    decreases |stack|, 0
  {
    if stack == [] then if toks != [] then Err(TrailingTokens) else Ok(val)
    else
      var top, below := stack[|stack| - 1], stack[..|stack| - 1];
      match top
      case BeginLoop(min) => ResumeLoop(t, below, val, grouped, toks, min)
      case PrefixWrap(op) => Resume(t, below, Unary(op, val), false, toks)
      case ParenClose =>
        if toks == [] || toks[0] != RParen then Err(ExpectedRParen) else Resume(t, below, val, true, toks[1..])
      case BinaryRhs(lhs, op, min) => ResumeLoop(t, below, Binary(lhs, op, val), false, toks, min)
  }

  ghost function ResumeLoop(t: Table, stack: seq<Frame>, lhs: Expr, grouped: bool, toks: seq<Tok>, min: nat): Result<Expr>
    decreases |stack|, 1
  {
    match Climb(t, lhs, grouped, toks, min)
    case Err(error) => Err(error)
    case Ok(x) => Resume(t, stack, x.e, false, x.rest)
  }

  ghost function ResumeExpr(t: Table, stack: seq<Frame>, toks: seq<Tok>, min: nat): Result<Expr> {
    match ExprBp(t, toks, min)
    case Err(error) => Err(error)
    case Ok(x) => Resume(t, stack, x.e, false, x.rest)
  }

  /** What a state of the driver will answer. */
  ghost function Answer(t: Table, state: State, stack: seq<Frame>, toks: seq<Tok>): Result<Expr> {
    match state
    case StartExpr(min) => ResumeExpr(t, stack, toks, min)
    case RunLoop(lhs, grouped, min) => ResumeLoop(t, stack, lhs, grouped, toks, min)
    case Produce(val, grouped) => Resume(t, stack, val, grouped, toks)
  }

  ghost predicate Shaped(state: State, stack: seq<Frame>) {
    if state.Produce? then AwaitsExpr(stack) || AwaitsPrimary(stack) else AwaitsExpr(stack)
  }

  function Weight(state: State, stack: seq<Frame>, left: nat): nat {
    8 * left + 2 * |stack| + if state.RunLoop? then 1 else 0
  }

  lemma ParseIsResume(t: Table, toks: seq<Tok>)
    ensures Parse(t, toks) == Answer(t, StartExpr(0), [], toks)
  {}

  /** A finished value's grouping matters only to the loop that awaits a primary. */
  lemma GroupingIgnored(t: Table, stack: seq<Frame>, val: Expr, toks: seq<Tok>, a: bool, b: bool)
    requires AwaitsExpr(stack)
    ensures Resume(t, stack, val, a, toks) == Resume(t, stack, val, b, toks)
  {}

  lemma Popped(stack: seq<Frame>, top: Frame)
    ensures (stack + [top])[..|stack + [top]| - 1] == stack
  {}

  /** The primary's value goes to its loop. */
  lemma PushedResumes(t: Table, outer: seq<Frame>, toks: seq<Tok>, min: nat)
    ensures var p := Prefix(t, toks);
      ResumeExpr(t, outer, toks, min) ==
        if p.Err? then Err(p.error)
        else Resume(t, outer + [BeginLoop(min)], p.value.e, p.value.grouped, p.value.rest)
  {
    Popped(outer, BeginLoop(min));
  }

  lemma WrapResumes(t: Table, loop: seq<Frame>, toks: seq<Tok>, op: UnOp)
    ensures var x := ExprBp(t, toks, t.prefix(op));
      ResumeExpr(t, loop + [PrefixWrap(op)], toks, t.prefix(op)) ==
        if x.Err? then Err(x.error) else Resume(t, loop, Unary(op, x.value.e), false, x.value.rest)
  {
    Popped(loop, PrefixWrap(op));
  }

  lemma CloseResumes(t: Table, loop: seq<Frame>, toks: seq<Tok>)
    ensures var x := ExprBp(t, toks, 0);
      ResumeExpr(t, loop + [ParenClose], toks, 0) ==
        if x.Err? then Err(x.error)
        else if x.value.rest == [] || x.value.rest[0] != RParen then Err(ExpectedRParen)
        else Resume(t, loop, x.value.e, true, x.value.rest[1..])
  {
    Popped(loop, ParenClose);
  }

  lemma RhsResumes(t: Table, stack: seq<Frame>, lhs: Expr, op: BinOp, min: nat, toks: seq<Tok>)
    ensures var x := ExprBp(t, toks, t.binary(op).right);
      ResumeExpr(t, stack + [BinaryRhs(lhs, op, min)], toks, t.binary(op).right) ==
        if x.Err? then Err(x.error) else ResumeLoop(t, stack, Binary(lhs, op, x.value.e), false, x.value.rest, min)
  {
    Popped(stack, BinaryRhs(lhs, op, min));
  }

  /** One step of each state of the driver keeps what it will answer. Beginning an expression pushes its loop: */
  lemma StartSteps(t: Table, outer: seq<Frame>, toks: seq<Tok>, min: nat)
    requires AwaitsExpr(outer)
    ensures var loop := outer + [BeginLoop(min)];
      && AwaitsPrimary(loop)
      && AwaitsExpr(loop + [ParenClose]) && (forall op :: AwaitsExpr(loop + [PrefixWrap(op)]))
      && ResumeExpr(t, outer, toks, min) ==
        if toks == [] then Err(ExpectedExpr)
        else if toks[0].Num? then Resume(t, loop, Lit(toks[0].n), false, toks[1..])
        else if toks[0].Ident? then Resume(t, loop, Var(toks[0].id), false, toks[1..])
        else if PrefixOp(toks[0]).Some? then
          ResumeExpr(t, loop + [PrefixWrap(PrefixOp(toks[0]).value)], toks[1..], t.prefix(PrefixOp(toks[0]).value))
        else if toks[0] == LParen then ResumeExpr(t, loop + [ParenClose], toks[1..], 0)
        else Err(ExpectedExpr)
  {
    var loop := outer + [BeginLoop(min)];
    Popped(outer, BeginLoop(min));
    Popped(loop, ParenClose);
    forall op ensures AwaitsExpr(loop + [PrefixWrap(op)]) { Popped(loop, PrefixWrap(op)); }
    PushedResumes(t, outer, toks, min);
    if toks != [] {
      if PrefixOp(toks[0]).Some? { WrapResumes(t, loop, toks[1..], PrefixOp(toks[0]).value); }
      CloseResumes(t, loop, toks[1..]);
    }
  }

  /** the loop ends, or pushes what awaits the right operand: */
  lemma LoopSteps(t: Table, stack: seq<Frame>, lhs: Expr, grouped: bool, toks: seq<Tok>, min: nat)
    requires AwaitsExpr(stack)
    ensures match NextOp(t, toks, min)
      case None => ResumeLoop(t, stack, lhs, grouped, toks, min) == Resume(t, stack, lhs, grouped, toks)
      case Some(op) =>
        var bp, pushed := t.binary(op), stack + [BinaryRhs(lhs, op, min)];
        && AwaitsExpr(pushed)
        && ResumeLoop(t, stack, lhs, grouped, toks, min) ==
          if bp.assoc == NonAssoc && !grouped && ChainsNonAssoc(t, lhs, bp.left) then Err(NonAssocChain)
          else ResumeExpr(t, pushed, toks[1..], bp.right)
  {
    match NextOp(t, toks, min)
    case None => GroupingIgnored(t, stack, lhs, toks, false, grouped);
    case Some(op) =>
      Popped(stack, BinaryRhs(lhs, op, min));
      RhsResumes(t, stack, lhs, op, min, toks[1..]);
  }

  /** and a finished value goes to the call that awaits it. */
  lemma ProduceSteps(t: Table, stack: seq<Frame>, val: Expr, grouped: bool, toks: seq<Tok>)
    requires stack != [] && Shaped(Produce(val, grouped), stack)
    ensures var top, below := stack[|stack| - 1], stack[..|stack| - 1];
      var answer := Resume(t, stack, val, grouped, toks);
      match top
      case BeginLoop(min) => AwaitsExpr(below) && answer == ResumeLoop(t, below, val, grouped, toks, min)
      case PrefixWrap(op) => AwaitsPrimary(below) && answer == Resume(t, below, Unary(op, val), false, toks)
      case ParenClose =>
        && AwaitsPrimary(below)
        && answer == (if toks == [] || toks[0] != RParen then Err(ExpectedRParen) else Resume(t, below, val, true, toks[1..]))
      case BinaryRhs(lhs, op, min) =>
        AwaitsExpr(below) && answer == ResumeLoop(t, below, Binary(lhs, op, val), false, toks, min)
  {}

  class IterParser {
    const t: Table
    var stack: seq<Frame>

    constructor (t: Table)
      ensures this.t == t
    {
      this.t := t;
      stack := [];
    }

    /** For every token list the explicit stack gives what the recursion gives, whatever a previous
        parse left on it. */
    method ParseTokens(toks: seq<Tok>) returns (r: Result<Expr>)
      modifies this
      ensures r == Parse(t, toks)
    {
      stack := [];
      var pos := 0;
      var state := StartExpr(0);
      assert toks[0..] == toks;
      ParseIsResume(t, toks);
      while true
        invariant pos <= |toks| && Shaped(state, stack)
        invariant Answer(t, state, stack, toks[pos..]) == Parse(t, toks)
        decreases Weight(state, stack, |toks| - pos)
      {
        ghost var rest := toks[pos..];
        assert pos < |toks| ==> rest[0] == toks[pos] && rest[1..] == toks[pos + 1..];
        match state {
          case StartExpr(min) =>
            StartSteps(t, stack, rest, min);
            stack := stack + [BeginLoop(min)];
            if pos == |toks| {
              return Err(ExpectedExpr);
            }
            var tok := toks[pos];
            pos := pos + 1;
            if tok.Num? {
              state := Produce(Lit(tok.n), false);
            } else if tok.Ident? {
              state := Produce(Var(tok.id), false);
            } else if PrefixOp(tok).Some? {
              var op := PrefixOp(tok).value;
              stack := stack + [PrefixWrap(op)];
              state := StartExpr(t.prefix(op));
            } else if tok == LParen {
              stack := stack + [ParenClose];
              state := StartExpr(0);
            } else {
              return Err(ExpectedExpr);
            }
          case RunLoop(lhs, grouped, min) =>
            LoopSteps(t, stack, lhs, grouped, rest, min);
            var op := if pos < |toks| then InfixOp(toks[pos]) else None;
            if op.None? || t.binary(op.value).left < min {
              state := Produce(lhs, grouped);
            } else {
              var bp := t.binary(op.value);
              if bp.assoc == NonAssoc && !grouped && ChainsNonAssoc(t, lhs, bp.left) {
                return Err(NonAssocChain);
              }
              pos := pos + 1;
              stack := stack + [BinaryRhs(lhs, op.value, min)];
              state := StartExpr(bp.right);
            }
          case Produce(val, grouped) =>
            if stack == [] {
              return if pos != |toks| then Err(TrailingTokens) else Ok(val);
            }
            ProduceSteps(t, stack, val, grouped, rest);
            var top := stack[|stack| - 1];
            stack := stack[..|stack| - 1];
            match top {
              case BeginLoop(min) => state := RunLoop(val, grouped, min);
              case PrefixWrap(op) => state := Produce(Unary(op, val), false);
              case ParenClose =>
                if pos == |toks| || toks[pos] != RParen {
                  return Err(ExpectedRParen);
                }
                pos := pos + 1;
                state := Produce(val, true);
              case BinaryRhs(lhs, op, min) => state := RunLoop(Binary(lhs, op, val), false, min);
            }
        }
      }
    }
  }
}
