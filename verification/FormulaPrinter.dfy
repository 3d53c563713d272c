/**
 * Printing a formula and reading it back: references in brackets, spaces around binary operators, and
 * parentheses only where precedence needs them.
 */
module FormulaPrinter {
  import opened Wrappers
  import opened FormulaTokens
  import opened FormulaGrammar
  import opened FormulaParser

  /** Abstract syntax: no parentheses, and numerals as they are written. */
  datatype Ast =
    | Lit(raw: string)
    | Var(name: string)
    | Unary(op: Operator, arg: Ast)
    | Binary(op: Operator, left: Ast, right: Ast)

  /** Numerals that are numbers, and names that fit in brackets: any others are not formulas. */
  predicate Printable(a: Ast) {
    match a
    case Lit(raw) => (forall i :: 0 <= i < |raw| ==> IsNumeral(raw[i])) && NumberOf(raw).Some?
    case Var(name) => name != "" && FormulaTokens.Trim(name) == name && ']' !in name
    case Unary(op, x) => Additive(op) && Printable(x)
    case Binary(_, l, r) => Printable(l) && Printable(r)
  }

  function EvalAst(a: Ast, resolve: Resolver): Option<real> {
    match a
    case Lit(raw) => NumberOf(raw)
    case Var(name) => resolve(name)
    case Unary(op, x) =>
      (match EvalAst(x, resolve)
       case None => None
       case Some(v) => Some(if op == Minus then -v else v))
    case Binary(op, l, r) =>
      match (EvalAst(l, resolve), EvalAst(r, resolve))
      case (Some(x), Some(y)) => Result(op, x, y)
      case _ => None
  }

  /** Division by zero has no result. */
  function Result(op: Operator, x: real, y: real): Option<real> {
    if op == Plus then Some(x + y)
    else if op == Minus then Some(x - y)
    else if op == Times then Some(x * y)
    else if y == 0.0 then None else Some(x / y)
  }

  /** What the parser computes for an operator is what the operator means. */
  lemma ApplyIsResult(op: Operator, x: real, y: real)
    ensures Apply(op, x, y) == Result(op, x, y)
  {}

  /** How tightly a construct binds: 0 sums, 1 products, 2 signs, 3 operands. */
  function Strength(op: Operator): nat { if Additive(op) then 0 else 1 }

  function Level(a: Ast): nat {
    match a
    case Lit(_) => 3
    case Var(_) => 3
    case Unary(_, _) => 2
    case Binary(op, _, _) => Strength(op)
  }

  // ---------------------------------------------------------------- as a tree of the grammar

  function Shape(a: Ast, need: nat): Tree
    requires Printable(a)
    decreases a, 1
  {
    if Level(a) >= need then Body(a) else Group(Body(a))
  }

  function Body(a: Ast): Tree
    requires Printable(a)
    decreases a, 0
  {
    match a
    case Lit(raw) => Num(NumberOf(raw).value)
    case Var(name) => Name(name)
    case Unary(op, x) => Sign(op, Shape(x, 2))
    case Binary(op, l, r) => Bin(op, Shape(l, Strength(op)), Shape(r, Strength(op) + 1))
  }

  predicate IsAt(t: Tree, need: nat) {
    if need == 0 then IsExpr(t) else if need == 1 then IsTerm(t) else if need == 2 then IsFactor(t) else IsPrimary(t)
  }

  lemma TighterIsLooser(t: Tree)
    ensures IsPrimary(t) ==> IsFactor(t)
    ensures IsFactor(t) ==> IsTerm(t)
    ensures IsTerm(t) ==> IsExpr(t)
  {}

  lemma {:induction false} ShapeDerives(a: Ast, need: nat)
    requires Printable(a) && need <= 3
    ensures IsAt(Shape(a, need), need)
    decreases a, 1
  {
    BodyDerives(a, if Level(a) >= need then need else 0);
    TighterIsLooser(Shape(a, need));
  }

  lemma {:induction false} BodyDerives(a: Ast, need: nat)
    requires Printable(a) && need <= Level(a)
    ensures IsAt(Body(a), need)
    decreases a, 0
  {
    TighterIsLooser(Body(a));
    match a
    case Lit(_) =>
    case Var(_) =>
    case Unary(op, x) => ShapeDerives(x, 2);
    case Binary(op, l, r) =>
      ShapeDerives(l, Strength(op));
      ShapeDerives(r, Strength(op) + 1);
  }

  lemma {:induction false} ShapeMeans(a: Ast, need: nat, resolve: Resolver)
    requires Printable(a)
    ensures Eval(Shape(a, need), resolve) == EvalAst(a, resolve)
    decreases a
  {
    match a
    case Lit(_) =>
    case Var(_) =>
    case Unary(op, x) => ShapeMeans(x, 2, resolve);
    case Binary(op, l, r) =>
      hide Apply, Result;
      ShapeMeans(l, Strength(op), resolve);
      ShapeMeans(r, Strength(op) + 1, resolve);
      forall x, y ensures Apply(op, x, y) == Result(op, x, y) {
        ApplyIsResult(op, x, y);
      }
  }

  // ---------------------------------------------------------------- as a string

  function Symbol(op: Operator): char {
    match op
    case Plus => '+'
    case Minus => '-'
    case Times => '*'
    case Over => '/'
  }

  function Print(a: Ast, need: nat): string
    decreases a, 1
  {
    if Level(a) >= need then PrintBody(a) else "(" + PrintBody(a) + ")"
  }

  function PrintBody(a: Ast): string
    decreases a, 0
  {
    match a
    case Lit(raw) => raw
    case Var(name) => "[" + name + "]"
    case Unary(op, x) => [Symbol(op)] + Print(x, 2)
    case Binary(op, l, r) => Print(l, Strength(op)) + (" " + [Symbol(op)] + " ") + Print(r, Strength(op) + 1)
  }

  // ---------------------------------------------------------------- reading the string back

  predicate EndsNumeral(rest: string) { rest == "" || !IsNumeral(rest[0]) }

  lemma LexSymbol(op: Operator, rest: string)
    ensures Lex([Symbol(op)] + rest) == Prepend([Op(op)], Lex(rest))
  {
    assert ([Symbol(op)] + rest)[1..] == rest;
    assert Head([Symbol(op)] + rest) == Some((Op(op), 1));
  }

  lemma LexParens(rest: string)
    ensures Lex("(" + rest) == Prepend([Open], Lex(rest))
    ensures Lex(")" + rest) == Prepend([Close], Lex(rest))
  {
    assert ("(" + rest)[1..] == rest && (")" + rest)[1..] == rest;
    assert Head("(" + rest) == Some((Open, 1)) && Head(")" + rest) == Some((Close, 1));
  }

  lemma LexSpace(rest: string)
    ensures Lex(" " + rest) == Lex(rest)
  {
    assert (" " + rest)[1..] == rest;
  }

  lemma LexNumeral(raw: string, rest: string)
    requires Printable(Lit(raw)) && EndsNumeral(rest)
    ensures Lex(raw + rest) == Prepend([Number(NumberOf(raw).value)], Lex(rest))
  {
    SpanOf(raw, rest, IsNumeral);
    assert raw != "";
    var s := raw + rest;
    assert IsNumeral(s[0]) && s[..|raw|] == raw && s[|raw|..] == rest;
    assert Head(s) == Some((Number(NumberOf(raw).value), |raw|));
  }

  lemma LexBracketed(name: string, rest: string)
    requires Printable(Var(name))
    ensures Lex("[" + name + "]" + rest) == Prepend([Ref(name)], Lex(rest))
  {
    var s := "[" + name + "]" + rest;
    assert s[1..] == name + [']'] + rest;
    FirstIndexOf(name, ']', rest);
    assert s[1..|name| + 1] == name && s[|name| + 2..] == rest;
    assert Head(s) == Some((Ref(name), |name| + 2));
  }

  lemma LexBinary(op: Operator, rest: string)
    ensures Lex(" " + [Symbol(op)] + " " + rest) == Prepend([Op(op)], Lex(rest))
  {
    var s := " " + [Symbol(op)] + " " + rest;
    assert s == " " + ([Symbol(op)] + (" " + rest));
    LexSpace([Symbol(op)] + (" " + rest));
    LexSymbol(op, " " + rest);
    LexSpace(rest);
  }

  /** Two printed operands around a binary operator. */
  lemma LexOperands(op: Operator, left: string, right: string, rest: string, lt: seq<Token>, rt: seq<Token>)
    requires Lex(left + (" " + [Symbol(op)] + " " + (right + rest))) ==
             Prepend(lt, Lex(" " + [Symbol(op)] + " " + (right + rest)))
    requires Lex(right + rest) == Prepend(rt, Lex(rest))
    ensures Lex(left + (" " + [Symbol(op)] + " ") + right + rest) == Prepend(lt + [Op(op)] + rt, Lex(rest))
  {
    hide Lex, Prepend, Symbol;
    var middle := " " + [Symbol(op)] + " ";
    assert left + middle + right + rest == left + (middle + (right + rest));
    LexBinary(op, right + rest);
    PrependAppend([Op(op)], rt, Lex(rest));
    PrependAppend(lt, [Op(op)] + rt, Lex(rest));
    assert lt + ([Op(op)] + rt) == lt + [Op(op)] + rt;
  }

  lemma {:induction false} LexPrint(a: Ast, need: nat, rest: string)
    requires Printable(a) && EndsNumeral(rest)
    ensures Lex(Print(a, need) + rest) == Prepend(Yield(Shape(a, need)), Lex(rest))
    decreases a, 1
  {
    if Level(a) >= need {
      LexPrintBody(a, rest);
    } else {
      var inner := PrintBody(a);
      assert Print(a, need) + rest == "(" + (inner + (")" + rest));
      LexParens(inner + (")" + rest));
      LexPrintBody(a, ")" + rest);
      LexParens(rest);
      PrependAppend(Yield(Body(a)), [Close], Lex(rest));
      PrependAppend([Open], Yield(Body(a)) + [Close], Lex(rest));
      assert [Open] + (Yield(Body(a)) + [Close]) == Yield(Group(Body(a)));
    }
  }

  lemma {:induction false} LexPrintBody(a: Ast, rest: string)
    requires Printable(a) && EndsNumeral(rest)
    ensures Lex(PrintBody(a) + rest) == Prepend(Yield(Body(a)), Lex(rest))
    decreases a, 0
  {
    hide Lex, Prepend;
    match a
    case Lit(raw) => LexNumeral(raw, rest);
    case Var(name) => LexBracketed(name, rest);
    case Unary(op, x) =>
      assert PrintBody(a) + rest == [Symbol(op)] + (Print(x, 2) + rest);
      LexSymbol(op, Print(x, 2) + rest);
      LexPrint(x, 2, rest);
      PrependAppend([Op(op)], Yield(Shape(x, 2)), Lex(rest));
    case Binary(op, l, r) =>
      var k := Strength(op);
      LexPrint(l, k, " " + [Symbol(op)] + " " + (Print(r, k + 1) + rest));
      LexPrint(r, k + 1, rest);
      LexOperands(op, Print(l, k), Print(r, k + 1), rest, Yield(Shape(l, k)), Yield(Shape(r, k + 1)));
  }

  /** A printed formula, tokenized, parsed and evaluated, has the value of what was printed. */
  lemma PrintThenEvaluate(a: Ast, resolve: Resolver)
    requires Printable(a)
    ensures TreeOf(Print(a, 0)) == Some(Shape(a, 0))
    ensures Value(Print(a, 0), resolve) == EvalAst(a, resolve)
  {
    assert Print(a, 0) + "" == Print(a, 0);
    LexPrint(a, 0, "");
    var t := Shape(a, 0);
    assert Yield(t) + [] == Yield(t) && Lex("") == Some([]);
    ShapeDerives(a, 0);
    ParseExact(Yield(t), t);
    ShapeMeans(a, 0, resolve);
  }

  const QUOTIENT := Binary(Over, Var("A"), Binary(Minus, Var("B"), Var("C")))

  lemma QuotientPrints()
    ensures Printable(QUOTIENT) && Print(QUOTIENT, 0) == "[A] / ([B] - [C])"
  {
    assert FormulaTokens.Trim("A") == "A" && FormulaTokens.Trim("B") == "B" && FormulaTokens.Trim("C") == "C";
    assert Print(Binary(Minus, Var("B"), Var("C")), 2) == "([B] - [C])";
  }

  lemma QuotientMeans(resolve: Resolver, a: real, b: real, c: real)
    requires resolve("A") == Some(a) && resolve("B") == Some(b) && resolve("C") == Some(c)
    ensures EvalAst(QUOTIENT, resolve) == Result(Over, a, b - c)
  {
    assert EvalAst(Binary(Minus, Var("B"), Var("C")), resolve) == Some(b - c);
    hide Result;
  }

  lemma QuotientValue(resolve: Resolver, a: real, b: real, c: real)
    requires resolve("A") == Some(a) && resolve("B") == Some(b) && resolve("C") == Some(c)
    ensures Value("[A] / ([B] - [C])", resolve) == Result(Over, a, b - c)
  {
    hide Print, Printable, EvalAst, Value, Result;
    QuotientPrints();
    PrintThenEvaluate(QUOTIENT, resolve);
    QuotientMeans(resolve, a, b, c);
  }

  /** A string that has a value wherever B and C differ, and that validation rejects all the same. */
  lemma RejectedThoughDefined(scope: map<string, real>)
    requires "A" in scope && "B" in scope && "C" in scope && scope["B"] != scope["C"]
    ensures Value("[A] / ([B] - [C])", InScope(scope)) == Some(scope["A"] / (scope["B"] - scope["C"]))
    ensures Value("[A] / ([B] - [C])", AllOnes()) == None
  {
    hide Value;
    QuotientValue(InScope(scope), scope["A"], scope["B"], scope["C"]);
    QuotientValue(AllOnes(), 1.0, 1.0, 1.0);
  }

  // ---------------------------------------------------------------- the four operators, as they are written

  lemma OperatorPrints(op: Operator, a: string, b: string)
    ensures Print(Binary(op, Var(a), Var(b)), 0) == "[" + a + "]" + (" " + [Symbol(op)] + " ") + ("[" + b + "]")
  {
    hide Print, Symbol;
    VarPrints(a, Strength(op));
    VarPrints(b, Strength(op) + 1);
    BinaryPrints(op, Var(a), Var(b));
  }

  lemma VarPrints(name: string, need: nat)
    requires need <= 3
    ensures Print(Var(name), need) == "[" + name + "]"
  {}

  lemma BinaryPrints(op: Operator, l: Ast, r: Ast)
    ensures Print(Binary(op, l, r), 0) ==
            Print(l, Strength(op)) + (" " + [Symbol(op)] + " ") + Print(r, Strength(op) + 1)
  {
    hide Symbol;
  }

  lemma Signs()
    ensures " + " == " " + [Symbol(Plus)] + " " && " - " == " " + [Symbol(Minus)] + " "
    ensures " * " == " " + [Symbol(Times)] + " " && " / " == " " + [Symbol(Over)] + " "
  {}

  lemma OperatorValue(op: Operator, sign: string, a: string, b: string, scope: map<string, real>)
    requires Printable(Var(a)) && Printable(Var(b)) && a in scope && b in scope && sign == " " + [Symbol(op)] + " "
    ensures Value("[" + a + "]" + sign + "[" + b + "]", InScope(scope)) == Result(op, scope[a], scope[b])
  {
    hide Value, Print, Symbol, Result;
    OperatorPrints(op, a, b);
    assert "[" + a + "]" + sign + "[" + b + "]" == "[" + a + "]" + sign + ("[" + b + "]");
    PrintThenEvaluate(Binary(op, Var(a), Var(b)), InScope(scope));
    assert EvalAst(Var(a), InScope(scope)) == Some(scope[a]) && EvalAst(Var(b), InScope(scope)) == Some(scope[b]);
  }

  /** Two references with an operator between them, whatever they are called. */
  lemma Arithmetic(a: string, b: string, scope: map<string, real>)
    requires Printable(Var(a)) && Printable(Var(b)) && a in scope && b in scope
    ensures Value("[" + a + "]" + " + " + "[" + b + "]", InScope(scope)) == Some(scope[a] + scope[b])
    ensures Value("[" + a + "]" + " - " + "[" + b + "]", InScope(scope)) == Some(scope[a] - scope[b])
    ensures Value("[" + a + "]" + " * " + "[" + b + "]", InScope(scope)) == Some(scope[a] * scope[b])
    ensures Value("[" + a + "]" + " / " + "[" + b + "]", InScope(scope)) ==
            if scope[b] == 0.0 then None else Some(scope[a] / scope[b])
  {
    hide Value, Printable, Symbol;
    Signs();
    OperatorValue(Plus, " + ", a, b, scope);
    OperatorValue(Minus, " - ", a, b, scope);
    OperatorValue(Times, " * ", a, b, scope);
    OperatorValue(Over, " / ", a, b, scope);
  }

  lemma ProductPrints(a: string, b: string, need: nat)
    requires need <= 1
    ensures Print(Binary(Times, Var(a), Var(b)), need) == "[" + a + "]" + " * " + ("[" + b + "]")
  {
    hide Symbol;
    Signs();
    VarPrints(a, 1);
    VarPrints(b, 2);
    hide Print;
    OperatorPrints(Times, a, b);
    LooseEnough(Binary(Times, Var(a), Var(b)), need);
  }

  lemma LooseEnough(t: Ast, need: nat)
    requires need <= Level(t)
    ensures Print(t, need) == Print(t, 0)
  {}

  lemma Strengths()
    ensures Strength(Plus) == 0 == Strength(Minus) && Strength(Times) == 1 == Strength(Over)
  {}

  lemma ProductLast(a: string, b: string, c: string)
    ensures Print(Binary(Minus, Var(a), Binary(Times, Var(b), Var(c))), 0) ==
            "[" + a + "]" + " - " + ("[" + b + "]" + " * " + ("[" + c + "]"))
  {
    Strengths();
    Signs();
    hide Print, Symbol, Strength;
    VarPrints(a, 0);
    ProductPrints(b, c, 1);
    BinaryPrints(Minus, Var(a), Binary(Times, Var(b), Var(c)));
  }

  lemma ProductFirst(a: string, b: string, c: string)
    ensures Print(Binary(Minus, Binary(Times, Var(a), Var(b)), Var(c)), 0) ==
            "[" + a + "]" + " * " + ("[" + b + "]") + " - " + ("[" + c + "]")
  {
    Strengths();
    Signs();
    hide Print, Symbol, Strength;
    VarPrints(c, 1);
    ProductPrints(a, b, 0);
    BinaryPrints(Minus, Binary(Times, Var(a), Var(b)), Var(c));
  }

  lemma DifferenceFirst(a: string, b: string, c: string)
    ensures Print(Binary(Minus, Binary(Minus, Var(a), Var(b)), Var(c)), 0) ==
            "[" + a + "]" + " - " + ("[" + b + "]") + " - " + ("[" + c + "]")
  {
    Strengths();
    Signs();
    hide Print, Symbol, Strength;
    VarPrints(c, 1);
    OperatorPrints(Minus, a, b);
    BinaryPrints(Minus, Binary(Minus, Var(a), Var(b)), Var(c));
  }

  /** Products bind tighter than sums, on either side, and operators of one strength group to the left. */
  lemma Precedence(a: string, b: string, c: string, scope: map<string, real>)
    requires Printable(Var(a)) && Printable(Var(b)) && Printable(Var(c)) && a in scope && b in scope && c in scope
    ensures Value("[" + a + "]" + " - " + ("[" + b + "]" + " * " + ("[" + c + "]")), InScope(scope)) ==
            Some(scope[a] - scope[b] * scope[c])
    ensures Value("[" + a + "]" + " * " + ("[" + b + "]") + " - " + ("[" + c + "]"), InScope(scope)) ==
            Some(scope[a] * scope[b] - scope[c])
    ensures Value("[" + a + "]" + " - " + ("[" + b + "]") + " - " + ("[" + c + "]"), InScope(scope)) ==
            Some(scope[a] - scope[b] - scope[c])
  {
    ProductLast(a, b, c);
    ProductFirst(a, b, c);
    DifferenceFirst(a, b, c);
    hide Value, Print, EvalAst, Symbol;
    MeansTwo(Minus, Var(a), Binary(Times, Var(b), Var(c)), InScope(scope));
    MeansTwo(Minus, Binary(Times, Var(a), Var(b)), Var(c), InScope(scope));
    MeansTwo(Minus, Binary(Minus, Var(a), Var(b)), Var(c), InScope(scope));
    VarMeans(a, scope);
    VarMeans(b, scope);
    VarMeans(c, scope);
    BinaryMeans(Times, Var(b), Var(c), InScope(scope));
    BinaryMeans(Times, Var(a), Var(b), InScope(scope));
    BinaryMeans(Minus, Var(a), Var(b), InScope(scope));
    BinaryMeans(Minus, Var(a), Binary(Times, Var(b), Var(c)), InScope(scope));
    BinaryMeans(Minus, Binary(Times, Var(a), Var(b)), Var(c), InScope(scope));
    BinaryMeans(Minus, Binary(Minus, Var(a), Var(b)), Var(c), InScope(scope));
  }

  lemma VarMeans(name: string, scope: map<string, real>)
    requires name in scope
    ensures EvalAst(Var(name), InScope(scope)) == Some(scope[name])
  {}

  lemma BinaryMeans(op: Operator, l: Ast, r: Ast, resolve: Resolver)
    requires EvalAst(l, resolve).Some? && EvalAst(r, resolve).Some?
    ensures EvalAst(Binary(op, l, r), resolve) == Result(op, EvalAst(l, resolve).value, EvalAst(r, resolve).value)
  {}

  lemma MeansTwo(op: Operator, l: Ast, r: Ast, resolve: Resolver)
    requires Printable(l) && Printable(r)
    ensures Value(Print(Binary(op, l, r), 0), resolve) == EvalAst(Binary(op, l, r), resolve)
  {
    PrintThenEvaluate(Binary(op, l, r), resolve);
  }
}
