/**
 * The Parser class, which evaluates while it parses, and the three exported functions over it.
 */
module FormulaParser {
  import opened Wrappers
  import opened FormulaTokens
  import opened FormulaGrammar

  /** What a parsing method owes: the value of the tree it reads, or a failure if there is none. */
  ghost predicate Reads(r: Option<real>, parsed: Parsed, resolve: Resolver, rest: seq<Token>) {
    match parsed
    case None => r == None
    case Some((t, after)) => r == Eval(t, resolve) && (r.Some? ==> rest == after)
  }

  /** A failed left operand makes the whole chain fail, however it goes on. */
  lemma {:induction false} ExprTailFails(left: Tree, ts: seq<Token>, resolve: Resolver)
    requires Eval(left, resolve) == None
    ensures ExprTail(left, ts).Some? ==> Eval(ExprTail(left, ts).value.0, resolve) == None
    decreases |ts|
  {
    if !EndsExpr(ts) && Term(ts[1..]).Some? {
      var (t, rest) := Term(ts[1..]).value;
      ExprTailFails(Bin(ts[0].op, left, t), rest, resolve);
    }
  }

  lemma {:induction false} TermTailFails(left: Tree, ts: seq<Token>, resolve: Resolver)
    requires Eval(left, resolve) == None
    ensures TermTail(left, ts).Some? ==> Eval(TermTail(left, ts).value.0, resolve) == None
    decreases |ts|
  {
    if !EndsTerm(ts) && Factor(ts[1..]).Some? {
      var (t, rest) := Factor(ts[1..]).value;
      TermTailFails(Bin(ts[0].op, left, t), rest, resolve);
    }
  }

  class Parser {
    const tokens: seq<Token>
    const resolve: Resolver
    var position: nat

    constructor (tokens: seq<Token>, resolve: Resolver)
      ensures this.tokens == tokens && this.resolve == resolve && position == 0
    {
      this.tokens, this.resolve, position := tokens, resolve, 0;
    }

    ghost predicate Valid()
      reads this
    {
      position <= |tokens|
    }

    ghost function Rest(): seq<Token>
      requires Valid()
      reads this
    {
      tokens[position..]
    }

    function Peek(): (t: Option<Token>)
      requires Valid()
      reads this
      ensures t == if Rest() == [] then None else Some(Rest()[0])
    {
      if position < |tokens| then Some(tokens[position]) else None
    }

    method Advance()
      requires Valid() && position < |tokens|
      modifies this
      ensures Valid() && Rest() == old(Rest())[1..] && position == old(position) + 1
    {
      position := position + 1;
    }

    method Parse() returns (r: Option<real>)
      requires Valid() && position == 0
      modifies this
      ensures r == match FormulaGrammar.Parse(tokens)
                   case None => None
                   case Some(t) => Eval(t, resolve)
    {
      assert Rest() == tokens;
      r := ParseExpression();
      if r.Some? && position < |tokens| {
        return None;
      }
    }

    method ParseExpression() returns (r: Option<real>)
      requires Valid()
      modifies this
      ensures Valid() && position >= old(position)
      ensures Reads(r, Expr(old(Rest())), resolve, Rest())
      decreases |tokens| - position, 4
    {
      ghost var start := Rest();
      var left := ParseTerm();
      if left == None {
        if Term(start).Some? {
          ExprTailFails(Term(start).value.0, Term(start).value.1, resolve);
        }
        return None;
      }
      ghost var tree := Term(start).value.0;
      while true
        invariant Valid() && position >= old(position) && |Rest()| < |start|
        invariant left == Eval(tree, resolve) && left.Some?
        invariant Expr(start) == ExprTail(tree, Rest())
        decreases |tokens| - position
      {
        ghost var here := Rest();
        var token := Peek();
        if token == None || !token.value.Op? || !Additive(token.value.op) {
          return left;
        }
        Advance();
        var right := ParseTerm();
        if right == None {
          if Term(here[1..]).Some? {
            ExprTailFails(Bin(here[0].op, tree, Term(here[1..]).value.0), Term(here[1..]).value.1, resolve);
          }
          return None;
        }
        tree := Bin(here[0].op, tree, Term(here[1..]).value.0);
        left := Some(if token.value.op == Plus then left.value + right.value else left.value - right.value);
      }
    }

    method ParseTerm() returns (r: Option<real>)
      requires Valid()
      modifies this
      ensures Valid() && position >= old(position)
      ensures Reads(r, Term(old(Rest())), resolve, Rest())
      decreases |tokens| - position, 3
    {
      ghost var start := Rest();
      var left := ParseFactor();
      if left == None {
        if Factor(start).Some? {
          TermTailFails(Factor(start).value.0, Factor(start).value.1, resolve);
        }
        return None;
      }
      ghost var tree := Factor(start).value.0;
      while true
        invariant Valid() && position >= old(position) && |Rest()| < |start|
        invariant left == Eval(tree, resolve) && left.Some?
        invariant Term(start) == TermTail(tree, Rest())
        decreases |tokens| - position
      {
        ghost var here := Rest();
        var token := Peek();
        if token == None || !token.value.Op? || Additive(token.value.op) {
          return left;
        }
        Advance();
        var right := ParseFactor();
        if right == None || (token.value.op == Over && right.value == 0.0) {
          if Factor(here[1..]).Some? {
            TermTailFails(Bin(here[0].op, tree, Factor(here[1..]).value.0), Factor(here[1..]).value.1, resolve);
          }
          return None;
        }
        tree := Bin(here[0].op, tree, Factor(here[1..]).value.0);
        left := Apply(token.value.op, left.value, right.value);
      }
    }

    method ParseFactor() returns (r: Option<real>)
      requires Valid()
      modifies this
      ensures Valid() && position >= old(position)
      ensures Reads(r, Factor(old(Rest())), resolve, Rest())
      decreases |tokens| - position, 2
    {
      var token := Peek();
      if token.Some? && token.value.Op? && Additive(token.value.op) {
        Advance();
        var value := ParseFactor();
        return if value == None then None else Some(if token.value.op == Minus then -value.value else value.value);
      }
      r := ParsePrimary();
    }

    method ParsePrimary() returns (r: Option<real>)
      requires Valid()
      modifies this
      ensures Valid() && position >= old(position)
      ensures Reads(r, Primary(old(Rest())), resolve, Rest())
      decreases |tokens| - position, 1
    {
      var token := Peek();
      if token == None {
        return None;
      }
      match token.value
      case Number(v) =>
        Advance();
        return Some(v);
      case Ref(name) =>
        Advance();
        return resolve(name);
      case Open =>
        Advance();
        var value := ParseExpression();
        if value == None {
          return None;
        }
        var closing := Peek();
        if closing != Some(Close) {
          return None;
        }
        Advance();
        return value;
      case _ =>
        return None;
    }
  }

  // ---------------------------------------------------------------- the exported functions

  /** The lookup of evaluateFormula. */
  function InScope(scope: map<string, real>): Resolver {
    (name: string) => if name in scope then Some(scope[name]) else None
  }

  /** The lookup of assertValidFormula. */
  function AllOnes(): Resolver {
    (name: string) => Some(1.0)
  }

  /** The one tree of a formula, if it has one. */
  function TreeOf(formula: string): Option<Tree> {
    match Lex(formula)
    case None => None
    case Some(ts) => FormulaGrammar.Parse(ts)
  }

  function Value(formula: string, resolve: Resolver): Option<real> {
    match TreeOf(formula)
    case None => None
    case Some(t) => Eval(t, resolve)
  }

  method Run(formula: string, resolve: Resolver) returns (r: Option<real>)
    ensures r == Value(formula, resolve)
  {
    var tokens := Tokenize(formula);
    if tokens == None {
      return None;
    }
    var parser := new Parser(tokens.value, resolve);
    r := parser.Parse();
  }

  method EvaluateFormula(formula: string, scope: map<string, real>) returns (r: Option<real>)
    ensures r == Value(formula, InScope(scope))
  {
    r := Run(formula, InScope(scope));
  }

  method AssertValidFormula(formula: string) returns (ok: bool)
    ensures ok <==> Value(formula, AllOnes()).Some?
  {
    var r := Run(formula, AllOnes());
    ok := r.Some?;
  }

  // ---------------------------------------------------------------- references

  function RefNames(ts: seq<Token>): seq<string> {
    if ts == [] then []
    else (if ts[0].Ref? then [ts[0].name] else []) + RefNames(ts[1..])
  }

  /** [...new Set(names)]: the first occurrence of each name. */
  function Distinct(names: seq<string>): seq<string> {
    if names == [] then []
    else
      var before := Distinct(names[..|names| - 1]);
      if names[|names| - 1] in before then before else before + [names[|names| - 1]]
  }

  function References(formula: string): Option<seq<string>> {
    match Lex(formula)
    case None => None
    case Some(ts) => Some(Distinct(RefNames(ts)))
  }

  method ExtractFormulaReferences(formula: string) returns (r: Option<seq<string>>)
    ensures r == References(formula)
  {
    var tokens := Tokenize(formula);
    r := if tokens == None then None else Some(Distinct(RefNames(tokens.value)));
  }

  /** The references of a tree from left to right. */
  function Names(t: Tree): seq<string> {
    match t
    case Num(_) => []
    case Name(n) => [n]
    case Group(e) => Names(e)
    case Sign(_, x) => Names(x)
    case Bin(_, l, r) => Names(l) + Names(r)
  }

  lemma {:induction false} RefNamesAppend(a: seq<Token>, b: seq<Token>)
    ensures RefNames(a + b) == RefNames(a) + RefNames(b)
  {
    if a == [] {
      assert a + b == b;
    } else {
      assert (a + b)[1..] == a[1..] + b;
      RefNamesAppend(a[1..], b);
    }
  }

  lemma {:induction false} NamesOfYield(t: Tree)
    ensures RefNames(Yield(t)) == Names(t)
  {
    match t
    case Num(_) =>
    case Name(_) =>
    case Group(e) =>
      NamesOfYield(e);
      RefNamesAppend([Open] + Yield(e), [Close]);
      RefNamesAppend([Open], Yield(e));
    case Sign(op, x) =>
      NamesOfYield(x);
      RefNamesAppend([Op(op)], Yield(x));
    case Bin(op, l, r) =>
      NamesOfYield(l);
      NamesOfYield(r);
      RefNamesAppend(Yield(l) + [Op(op)], Yield(r));
      RefNamesAppend(Yield(l), [Op(op)]);
  }

  /** `a` occurs, and before any occurrence of `b`. */
  ghost predicate SeenBefore(names: seq<string>, a: string, b: string) {
    exists k :: 0 <= k < |names| && names[k] == a && b !in names[..k + 1]
  }

  lemma SeenBeforeLonger(names: seq<string>, more: string, a: string, b: string)
    requires SeenBefore(names, a, b)
    ensures SeenBefore(names + [more], a, b)
  {
    var k :| 0 <= k < |names| && names[k] == a && b !in names[..k + 1];
    assert (names + [more])[..k + 1] == names[..k + 1];
  }

  lemma SeenBeforeNew(names: seq<string>, a: string, b: string)
    requires a in names && b !in names
    ensures SeenBefore(names + [b], a, b)
  {
    var k :| 0 <= k < |names| && names[k] == a;
    assert (names + [b])[..k + 1] == names[..k + 1];
  }

  lemma {:induction false} DistinctMembers(names: seq<string>)
    ensures forall n :: n in Distinct(names) <==> n in names
  {
    if names != [] {
      DistinctMembers(names[..|names| - 1]);
      assert names == names[..|names| - 1] + [names[|names| - 1]];
    }
  }

  /** No duplicates, and the order is that of the first occurrences. */
  lemma {:induction false} DistinctOrdered(names: seq<string>, i: nat, j: nat)
    requires i < j < |Distinct(names)|
    ensures Distinct(names)[i] != Distinct(names)[j]
    ensures SeenBefore(names, Distinct(names)[i], Distinct(names)[j])
  {
    var n := |names| - 1;
    var init := names[..n];
    var d := Distinct(init);
    assert names == init + [names[n]];
    DistinctMembers(init);
    if j < |d| {
      DistinctOrdered(init, i, j);
      SeenBeforeLonger(init, names[n], d[i], d[j]);
    } else {
      assert d[i] in init;
      SeenBeforeNew(init, d[i], names[n]);
    }
  }

  lemma {:induction false} EvalNeedsNames(t: Tree, resolve: Resolver)
    ensures Eval(t, resolve).Some? ==> forall n :: n in Names(t) ==> resolve(n).Some?
  {
    match t
    case Num(_) =>
    case Name(_) =>
    case Group(e) => EvalNeedsNames(e, resolve);
    case Sign(_, x) => EvalNeedsNames(x, resolve);
    case Bin(_, l, r) =>
      EvalNeedsNames(l, resolve);
      EvalNeedsNames(r, resolve);
  }

  lemma {:induction false} EvalUsesOnlyNames(t: Tree, resolve: Resolver, other: Resolver)
    requires forall n :: n in Names(t) ==> resolve(n) == other(n)
    ensures Eval(t, resolve) == Eval(t, other)
  {
    match t
    case Num(_) =>
    case Name(n) => assert n in Names(t);
    case Group(e) => EvalUsesOnlyNames(e, resolve, other);
    case Sign(_, x) => EvalUsesOnlyNames(x, resolve, other);
    case Bin(_, l, r) =>
      EvalUsesOnlyNames(l, resolve, other);
      EvalUsesOnlyNames(r, resolve, other);
  }

  /** The references that extractFormulaReferences lists are those of the tree. */
  lemma ReferencesOfTree(formula: string)
    ensures TreeOf(formula).Some? ==>
              References(formula).Some? &&
              forall n :: n in References(formula).value <==> n in Names(TreeOf(formula).value)
  {
    if TreeOf(formula).Some? {
      var ts, t := Lex(formula).value, TreeOf(formula).value;
      ParseExact(ts, t);
      NamesOfYield(t);
      DistinctMembers(RefNames(ts));
    }
  }

  /**
   * A successful evaluation had a value for every listed reference, and nothing but the listed
   * references matters: scopes that agree on them give the same result or both fail.
   */
  lemma Locality(formula: string, scope: map<string, real>, other: map<string, real>)
    ensures Value(formula, InScope(scope)).Some? ==>
              References(formula).Some? && forall n :: n in References(formula).value ==> n in scope
    ensures References(formula).Some? &&
            (forall n :: n in References(formula).value ==> InScope(scope)(n) == InScope(other)(n)) ==>
              Value(formula, InScope(scope)) == Value(formula, InScope(other))
  {
    ReferencesOfTree(formula);
    if TreeOf(formula).Some? {
      EvalNeedsNames(TreeOf(formula).value, InScope(scope));
      if forall n :: n in References(formula).value ==> InScope(scope)(n) == InScope(other)(n) {
        EvalUsesOnlyNames(TreeOf(formula).value, InScope(scope), InScope(other));
      }
    }
  }

  // ---------------------------------------------------------------- validation

  /** Some division in the tree has a divisor that evaluates to zero. */
  predicate ZeroDivisor(t: Tree, resolve: Resolver) {
    match t
    case Num(_) => false
    case Name(_) => false
    case Group(e) => ZeroDivisor(e, resolve)
    case Sign(_, x) => ZeroDivisor(x, resolve)
    case Bin(op, l, r) =>
      ZeroDivisor(l, resolve) || ZeroDivisor(r, resolve) || (op == Over && Eval(r, resolve) == Some(0.0))
  }

  /** With every reference bound, a zero divisor is the only way to fail. */
  lemma {:induction false} OnlyZeroDivisorFails(t: Tree, resolve: Resolver)
    requires forall n :: n in Names(t) ==> resolve(n).Some?
    ensures Eval(t, resolve) == None <==> ZeroDivisor(t, resolve)
  {
    match t
    case Num(_) =>
    case Name(n) => assert n in Names(t);
    case Group(e) => OnlyZeroDivisorFails(e, resolve);
    case Sign(_, x) => OnlyZeroDivisorFails(x, resolve);
    case Bin(_, l, r) =>
      OnlyZeroDivisorFails(l, resolve);
      OnlyZeroDivisorFails(r, resolve);
  }

  /** assertValidFormula accepts what parses and divides by nothing that is zero when every reference is 1. */
  lemma AcceptedExactly(formula: string, ones: map<string, real>)
    requires forall n :: References(formula).Some? && n in References(formula).value ==> n in ones && ones[n] == 1.0
    ensures Value(formula, AllOnes()) == Value(formula, InScope(ones))
    ensures Value(formula, AllOnes()).Some? <==>
            TreeOf(formula).Some? && !ZeroDivisor(TreeOf(formula).value, InScope(ones))
  {
    ReferencesOfTree(formula);
    if TreeOf(formula).Some? {
      EvalUsesOnlyNames(TreeOf(formula).value, AllOnes(), InScope(ones));
      OnlyZeroDivisorFails(TreeOf(formula).value, InScope(ones));
    }
  }

  /** An accepted formula, given all its references, fails only for a zero divisor in that scope. */
  lemma ValidationSound(formula: string, scope: map<string, real>)
    requires Value(formula, AllOnes()).Some?
    requires forall n :: References(formula).Some? && n in References(formula).value ==> n in scope
    ensures TreeOf(formula).Some?
    ensures Value(formula, InScope(scope)) == None <==> ZeroDivisor(TreeOf(formula).value, InScope(scope))
  {
    ReferencesOfTree(formula);
    OnlyZeroDivisorFails(TreeOf(formula).value, InScope(scope));
  }

  /** The converse fails: [A]/([B]-[C]) evaluates wherever B and C differ, and is never accepted. */
  lemma ValidationIncomplete()
    ensures var t := Bin(Over, Name("A"), Group(Bin(Minus, Name("B"), Name("C"))));
      && IsExpr(t)
      && FormulaGrammar.Parse(Yield(t)) == Some(t)
      && Eval(t, AllOnes()) == None
      && Eval(t, InScope(map["A" := 6.0, "B" := 3.0, "C" := 1.0])) == Some(3.0)
  {
    var t := Bin(Over, Name("A"), Group(Bin(Minus, Name("B"), Name("C"))));
    ParseExact(Yield(t), t);
    assert "A"[0] != "B"[0] && "A"[0] != "C"[0] && "B"[0] != "C"[0];
  }
}
