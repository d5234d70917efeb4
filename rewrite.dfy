/** The doubling rewrite: `x + x` becomes `x * 2`, applied over lambda bodies
    and the operands of non-`+` binary nodes, and iterated a given number of
    times. */
module Rewrite {
  import opened Outcome
  import opened Ast
  import Lexer
  import opened Evaluator

  /** Number of nodes of a tree. */
  function Size(e: Expr): nat
  {
    match e
    case Unary(_, a) => 1 + Size(a)
    case Binary(_, a, b) => 1 + Size(a) + Size(b)
    case If(c, t, f) => 1 + Size(c) + Size(t) + Size(f)
    case Lambda(_, a) => 1 + Size(a)
    case _ => 1
  }

  /** rewrite_expr: one pass. A `+` node is either doubled (equal operands) or
      left alone, without looking inside; lambda bodies and the operands of
      other binary nodes are rewritten; every other node is kept as it is.
      The pass binds and uses the same identifiers and never grows the tree. */
  function RewriteExpr(e: Expr): (r: Expr)
    ensures FreeVars(r) == FreeVars(e)
    ensures Binders(r) == Binders(e)
    ensures Size(r) <= Size(e)
  {
    match e
    case Binary(op, a, b) =>
      if op == '+' then
        if a == b then Binary('*', a, Integer(2)) else e
      else
        Binary(op, RewriteExpr(a), RewriteExpr(b))
    case Lambda(x, a) => Lambda(x, RewriteExpr(a))
    case _ => e
  }

  /** The pass applied `n` times. */
  function RewriteTimes(e: Expr, n: nat): Expr
  {
    if n == 0 then e else RewriteExpr(RewriteTimes(e, n - 1))
  }

  /** rewrite_expr_times: the loop that reassigns the tree `times` times. */
  method RewriteExprTimes(e: Expr, times: nat) returns (r: Expr)
    ensures r == RewriteTimes(e, times)
    ensures FreeVars(r) == FreeVars(e) && Size(r) <= Size(e)
  {
    r := e;
    for i := 0 to times
      invariant r == RewriteTimes(e, i)
      invariant FreeVars(r) == FreeVars(e) && Size(r) <= Size(e)
    {
      r := RewriteExpr(r);
    }
  }

  /** Iterating the pass keeps free identifiers and never grows the tree. */
  lemma {:induction false} RewriteTimesInvariant(e: Expr, n: nat)
    ensures FreeVars(RewriteTimes(e, n)) == FreeVars(e)
    ensures Binders(RewriteTimes(e, n)) == Binders(e)
    ensures Size(RewriteTimes(e, n)) <= Size(e)
  {
    if n > 0 {
      RewriteTimesInvariant(e, n - 1);
    }
  }

  /** Once a pass changes nothing, further passes change nothing. */
  lemma {:induction false} RewriteTimesFixpoint(e: Expr, n: nat)
    requires RewriteExpr(e) == e
    ensures RewriteTimes(e, n) == e
  {
    if n > 0 {
      RewriteTimesFixpoint(e, n - 1);
    }
  }

  /** Passes compose: m passes after n passes are n + m passes. */
  lemma {:induction false} RewriteTimesAdd(e: Expr, n: nat, m: nat)
    ensures RewriteTimes(RewriteTimes(e, n), m) == RewriteTimes(e, n + m)
  {
    if m > 0 {
      var k: nat := n + m - 1;
      RewriteTimesAdd(e, n, m - 1);
      assert RewriteTimes(e, k + 1) == RewriteExpr(RewriteTimes(e, k));
    }
  }

  /** `a * 2` evaluates like `a + a` whenever `a` fails or evaluates to a
      value; an integer `n` gives `2 n` both ways. */
  lemma DoublingKeepsValue(a: Expr)
    requires Eval(a).Err? || IsBasic(Eval(a).value)
    ensures Eval(Binary('*', a, Integer(2))) == Eval(Binary('+', a, a))
    ensures Eval(a).Ok? && Eval(a).value.Integer? ==>
      Eval(Binary('*', a, Integer(2))) == Ok(Integer(2 * Eval(a).value.n))
  {
    if Eval(a).Err? {
      EvalBinaryLeftFails('+', a, a);
      EvalBinaryLeftFails('*', a, Integer(2));
    } else {
      var v := Eval(a).value;
      EvalBinaryOfValues('+', a, a, v, v);
      EvalBinaryOfValues('*', a, Integer(2), v, Integer(2));
      DoublingOfValue(v);
    }
  }

  lemma DoublingOfValue(v: Expr)
    requires IsBasic(v)
    ensures EvalBinary('*', v, Integer(2)) == EvalBinary('+', v, v)
    ensures v.Integer? ==> EvalBinary('*', v, Integer(2)) == Ok(Integer(2 * v.n))
  {
  }

  /** When `a` evaluates to a tree that is not a value, the two forms differ:
      each rebuilds its own operator around the evaluated operand. */
  lemma DoublingOfStuckOperand(a: Expr)
    requires Eval(a).Ok? && !IsBasic(Eval(a).value)
    ensures Eval(Binary('+', a, a)) == Ok(Binary('+', Eval(a).value, Eval(a).value))
    ensures Eval(Binary('*', a, Integer(2))) == Ok(Binary('*', Eval(a).value, Integer(2)))
  {
  }

  /** A `+` with unequal operands is kept whole, even when an operand could be
      doubled itself. */
  lemma UnequalSumKept()
    ensures var inner := Binary('+', Var(0), Var(0));
      RewriteExpr(Binary('+', inner, Var(1))) == Binary('+', inner, Var(1))
  {
  }

  /** The token stream `L! B+ B+ v! v! B+ v! v!` reads as
      `\x0 -> (x0 + x0) + (x0 + x0)`. */
  lemma ScenarioTree()
    ensures
      var tokens := [Lexer.Lambda(0), Lexer.Binary('+'), Lexer.Binary('+'), Lexer.Var(0), Lexer.Var(0),
                     Lexer.Binary('+'), Lexer.Var(0), Lexer.Var(0)];
      var v := Var(0);
      CreateAst(tokens, 0) == Ok((Lambda(0, Binary('+', Binary('+', v, v), Binary('+', v, v))), 8))
  {
    var v := Var(0);
    var e := Lambda(0, Binary('+', Binary('+', v, v), Binary('+', v, v)));
    CreateAstOfSerializedAtStart(e, []);
    assert Serialize(e) + [] == [Lexer.Lambda(0), Lexer.Binary('+'), Lexer.Binary('+'), Lexer.Var(0), Lexer.Var(0),
                               Lexer.Binary('+'), Lexer.Var(0), Lexer.Var(0)];
  }

  /** Two passes turn `\x0 -> (x0 + x0) + (x0 + x0)` into
      `\x0 -> (x0 * 2) * 2`, which a third pass leaves alone. */
  lemma ScenarioRewrite()
    ensures
      var v := Var(0);
      var done := Lambda(0, Binary('*', Binary('*', v, Integer(2)), Integer(2)));
      && RewriteTimes(Lambda(0, Binary('+', Binary('+', v, v), Binary('+', v, v))), 2) == done
      && RewriteExpr(done) == done
  {
    var v := Var(0);
    var e := Lambda(0, Binary('+', Binary('+', v, v), Binary('+', v, v)));
    var once := Lambda(0, Binary('*', Binary('+', v, v), Integer(2)));
    var done := Lambda(0, Binary('*', Binary('*', v, Integer(2)), Integer(2)));
    FirstPass();
    SecondPass();
    ThirdPass();
    assert RewriteTimes(e, 1) == RewriteExpr(e);
    assert RewriteTimes(e, 2) == RewriteExpr(once);
  }

  lemma FirstPass()
    ensures var v := Var(0);
      RewriteExpr(Lambda(0, Binary('+', Binary('+', v, v), Binary('+', v, v))))
        == Lambda(0, Binary('*', Binary('+', v, v), Integer(2)))
  {
  }

  lemma SecondPass()
    ensures var v := Var(0);
      RewriteExpr(Lambda(0, Binary('*', Binary('+', v, v), Integer(2))))
        == Lambda(0, Binary('*', Binary('*', v, Integer(2)), Integer(2)))
  {
  }

  lemma ThirdPass()
    ensures var v := Var(0);
      var done := Lambda(0, Binary('*', Binary('*', v, Integer(2)), Integer(2)));
      RewriteExpr(done) == done
  {
  }
}
