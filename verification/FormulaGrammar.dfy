/**
 * The grammar that formulas follow, the meaning of its trees, and the recursive-descent parser as a
 * function from tokens to trees.
 *
 *   Expr    = Expr ('+' | '-') Term | Term          Factor  = ('+' | '-') Factor | Primary
 *   Term    = Term ('*' | '/') Factor | Factor      Primary = number | reference | '(' Expr ')'
 */
module FormulaGrammar {
  import opened Wrappers
  import opened FormulaTokens

  datatype Tree =
    | Num(value: real)
    | Name(name: string)
    | Group(inner: Tree)
    | Sign(op: Operator, operand: Tree)
    | Bin(op: Operator, left: Tree, right: Tree)

  predicate Additive(op: Operator) { op == Plus || op == Minus }

  // ---------------------------------------------------------------- derivations

  predicate IsExpr(t: Tree)
    decreases t, 3
  {
    (t.Bin? && Additive(t.op) && IsExpr(t.left) && IsTerm(t.right)) || IsTerm(t)
  }

  predicate IsTerm(t: Tree)
    decreases t, 2
  {
    (t.Bin? && !Additive(t.op) && IsTerm(t.left) && IsFactor(t.right)) || IsFactor(t)
  }

  predicate IsFactor(t: Tree)
    decreases t, 1
  {
    (t.Sign? && Additive(t.op) && IsFactor(t.operand)) || IsPrimary(t)
  }

  predicate IsPrimary(t: Tree)
    decreases t, 0
  {
    t.Num? || t.Name? || (t.Group? && IsExpr(t.inner))
  }

  /** The tokens that a tree derives. */
  function Yield(t: Tree): seq<Token> {
    match t
    case Num(v) => [Number(v)]
    case Name(n) => [Ref(n)]
    case Group(e) => [Open] + Yield(e) + [Close]
    case Sign(op, x) => [Op(op)] + Yield(x)
    case Bin(op, l, r) => Yield(l) + [Op(op)] + Yield(r)
  }

  // ---------------------------------------------------------------- meaning

  /** How references are looked up; None stands for a thrown FormulaError. */
  type Resolver = string -> Option<real>

  function Apply(op: Operator, a: real, b: real): Option<real> {
    match op
    case Plus => Some(a + b)
    case Minus => Some(a - b)
    case Times => Some(a * b)
    case Over => if b == 0.0 then None else Some(a / b)
  }

  function Eval(t: Tree, resolve: Resolver): Option<real> {
    match t
    case Num(v) => Some(v)
    case Name(n) => resolve(n)
    case Group(e) => Eval(e, resolve)
    case Sign(op, x) =>
      (match Eval(x, resolve)
       case None => None
       case Some(v) => Some(if op == Minus then -v else v))
    case Bin(op, l, r) =>
      match (Eval(l, resolve), Eval(r, resolve))
      case (Some(a), Some(b)) => Apply(op, a, b)
      case _ => None
  }

  // ---------------------------------------------------------------- the parser

  /** A tree and the tokens after it. */
  type Parsed = Option<(Tree, seq<Token>)>

  function Expr(ts: seq<Token>): (r: Parsed)
    ensures r.Some? ==> |r.value.1| < |ts|
    decreases |ts|, 4
  {
    match Term(ts)
    case None => None
    case Some((t, rest)) => ExprTail(t, rest)
  }

  function ExprTail(left: Tree, ts: seq<Token>): (r: Parsed)
    ensures r.Some? ==> |r.value.1| <= |ts|
    decreases |ts|, 0
  {
    if ts == [] || !ts[0].Op? || !Additive(ts[0].op) then Some((left, ts))
    else match Term(ts[1..])
      case None => None
      case Some((t, rest)) => ExprTail(Bin(ts[0].op, left, t), rest)
  }

  function Term(ts: seq<Token>): (r: Parsed)
    ensures r.Some? ==> |r.value.1| < |ts|
    decreases |ts|, 3
  {
    match Factor(ts)
    case None => None
    case Some((t, rest)) => TermTail(t, rest)
  }

  function TermTail(left: Tree, ts: seq<Token>): (r: Parsed)
    ensures r.Some? ==> |r.value.1| <= |ts|
    decreases |ts|, 0
  {
    if ts == [] || !ts[0].Op? || Additive(ts[0].op) then Some((left, ts))
    else match Factor(ts[1..])
      case None => None
      case Some((t, rest)) => TermTail(Bin(ts[0].op, left, t), rest)
  }

  function Factor(ts: seq<Token>): (r: Parsed)
    ensures r.Some? ==> |r.value.1| < |ts|
    decreases |ts|, 2
  {
    if ts != [] && ts[0].Op? && Additive(ts[0].op) then
      match Factor(ts[1..])
      case None => None
      case Some((t, rest)) => Some((Sign(ts[0].op, t), rest))
    else Primary(ts)
  }

  function Primary(ts: seq<Token>): (r: Parsed)
    ensures r.Some? ==> |r.value.1| < |ts|
    decreases |ts|, 1
  {
    if ts == [] then None
    else match ts[0]
      case Number(v) => Some((Num(v), ts[1..]))
      case Ref(n) => Some((Name(n), ts[1..]))
      case Open =>
        (match Expr(ts[1..])
         case None => None
         case Some((e, rest)) => if rest == [] || rest[0] != Close then None else Some((Group(e), rest[1..])))
      case _ => None
  }

  function Parse(ts: seq<Token>): Option<Tree> {
    match Expr(ts)
    case None => None
    case Some((t, rest)) => if rest == [] then Some(t) else None
  }

  // ---------------------------------------------------------------- soundness

  lemma {:induction false} ExprSound(ts: seq<Token>)
    ensures Expr(ts).Some? ==> IsExpr(Expr(ts).value.0) && ts == Yield(Expr(ts).value.0) + Expr(ts).value.1
    decreases |ts|, 4
  {
    TermSound(ts);
    if Term(ts).Some? {
      ExprTailSound(Term(ts).value.0, Term(ts).value.1);
    }
  }

  lemma {:induction false} ExprTailSound(left: Tree, ts: seq<Token>)
    requires IsExpr(left)
    ensures var r := ExprTail(left, ts);
            r.Some? ==> IsExpr(r.value.0) && Yield(left) + ts == Yield(r.value.0) + r.value.1
    decreases |ts|, 0
  {
    if ts != [] && ts[0].Op? && Additive(ts[0].op) {
      TermSound(ts[1..]);
      if Term(ts[1..]).Some? {
        var (t, rest) := Term(ts[1..]).value;
        ExprTailSound(Bin(ts[0].op, left, t), rest);
        assert Yield(left) + ts == Yield(left) + [ts[0]] + Yield(t) + rest;
      }
    }
  }

  lemma {:induction false} TermSound(ts: seq<Token>)
    ensures Term(ts).Some? ==> IsTerm(Term(ts).value.0) && ts == Yield(Term(ts).value.0) + Term(ts).value.1
    decreases |ts|, 3
  {
    FactorSound(ts);
    if Factor(ts).Some? {
      TermTailSound(Factor(ts).value.0, Factor(ts).value.1);
    }
  }

  lemma {:induction false} TermTailSound(left: Tree, ts: seq<Token>)
    requires IsTerm(left)
    ensures var r := TermTail(left, ts);
            r.Some? ==> IsTerm(r.value.0) && Yield(left) + ts == Yield(r.value.0) + r.value.1
    decreases |ts|, 0
  {
    if ts != [] && ts[0].Op? && !Additive(ts[0].op) {
      FactorSound(ts[1..]);
      if Factor(ts[1..]).Some? {
        var (t, rest) := Factor(ts[1..]).value;
        TermTailSound(Bin(ts[0].op, left, t), rest);
        assert Yield(left) + ts == Yield(left) + [ts[0]] + Yield(t) + rest;
      }
    }
  }

  lemma {:induction false} FactorSound(ts: seq<Token>)
    ensures Factor(ts).Some? ==> IsFactor(Factor(ts).value.0) && ts == Yield(Factor(ts).value.0) + Factor(ts).value.1
    decreases |ts|, 2
  {
    if ts != [] && ts[0].Op? && Additive(ts[0].op) {
      FactorSound(ts[1..]);
    } else {
      PrimarySound(ts);
    }
  }

  lemma {:induction false} PrimarySound(ts: seq<Token>)
    ensures Primary(ts).Some? ==>
              IsPrimary(Primary(ts).value.0) && ts == Yield(Primary(ts).value.0) + Primary(ts).value.1
    decreases |ts|, 1
  {
    if ts != [] && ts[0] == Open {
      ExprSound(ts[1..]);
    }
  }

  // ---------------------------------------------------------------- completeness

  /** The loop of parseExpression (resp. parseTerm) stops here. */
  predicate EndsExpr(rest: seq<Token>) { rest == [] || !rest[0].Op? || !Additive(rest[0].op) }
  predicate EndsTerm(rest: seq<Token>) { rest == [] || !rest[0].Op? || Additive(rest[0].op) }

  lemma {:induction false} ExprComplete(t: Tree, rest: seq<Token>)
    requires IsExpr(t) && EndsTerm(rest)
    ensures Expr(Yield(t) + rest) == ExprTail(t, rest)
    decreases t, 3
  {
    if t.Bin? && Additive(t.op) && IsExpr(t.left) && IsTerm(t.right) {
      var more := [Op(t.op)] + (Yield(t.right) + rest);
      assert Yield(t) + rest == Yield(t.left) + more;
      ExprComplete(t.left, more);
      TermComplete(t.right, rest);
      assert more[1..] == Yield(t.right) + rest;
    } else {
      TermComplete(t, rest);
    }
  }

  lemma {:induction false} TermComplete(t: Tree, rest: seq<Token>)
    requires IsTerm(t)
    ensures Term(Yield(t) + rest) == TermTail(t, rest)
    decreases t, 2
  {
    if t.Bin? && !Additive(t.op) && IsTerm(t.left) && IsFactor(t.right) {
      var more := [Op(t.op)] + (Yield(t.right) + rest);
      assert Yield(t) + rest == Yield(t.left) + more;
      TermComplete(t.left, more);
      FactorComplete(t.right, rest);
      assert more[1..] == Yield(t.right) + rest;
    } else {
      FactorComplete(t, rest);
    }
  }

  lemma {:induction false} FactorComplete(t: Tree, rest: seq<Token>)
    requires IsFactor(t)
    ensures Factor(Yield(t) + rest) == Some((t, rest))
    decreases t, 1
  {
    var ts := Yield(t) + rest;
    match t
    case Sign(op, x) =>
      FactorComplete(x, rest);
      assert ts[1..] == Yield(x) + rest;
    case Group(e) =>
      var more := [Close] + rest;
      assert ts == [Open] + (Yield(e) + more);
      ExprComplete(e, more);
      assert ts[1..] == Yield(e) + more && more[1..] == rest;
    case Num(_) => assert ts[1..] == rest;
    case Name(_) => assert ts[1..] == rest;
    case Bin(_, _, _) => assert false;
  }

  /** The parser accepts exactly what the grammar derives, and finds its one tree. */
  lemma ParseExact(ts: seq<Token>, t: Tree)
    ensures Parse(ts) == Some(t) <==> IsExpr(t) && Yield(t) == ts
  {
    ExprSound(ts);
    if Parse(ts) == Some(t) {
      assert Yield(t) + [] == Yield(t);
    }
    if IsExpr(t) && Yield(t) == ts {
      ExprComplete(t, []);
      assert Yield(t) + [] == Yield(t);
    }
  }

  /** No token sequence has two derivations. */
  lemma Unambiguous(t: Tree, u: Tree)
    requires IsExpr(t) && IsExpr(u) && Yield(t) == Yield(u)
    ensures t == u
  {
    ParseExact(Yield(t), t);
    ParseExact(Yield(t), u);
  }
}
