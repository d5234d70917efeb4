/** Substitution and the evaluator: one call of `Eval` reduces a tree by
    evaluating operands, applying operators to values and performing one
    beta step per lambda application it meets. */
module Evaluator {
  import opened Outcome
  import opened Ast
  import Codec

  // ---------------------------------------------------------------------------
  // Reading values out of nodes
  // ---------------------------------------------------------------------------

  function UnwrapBool(e: Expr): (r: Result<bool>)
    ensures r.Ok? <==> e.Boolean?
    ensures r.Ok? ==> e == Boolean(r.value)
  {
    if e.Boolean? then Ok(e.b) else Err(TypeMismatch)
  }

  function UnwrapInt(e: Expr): (r: Result<int>)
    ensures r.Ok? <==> e.Integer?
    ensures r.Ok? ==> e == Integer(r.value)
  {
    if e.Integer? then Ok(e.n) else Err(TypeMismatch)
  }

  function UnwrapString(e: Expr): (r: Result<string>)
    ensures r.Ok? <==> e.String?
    ensures r.Ok? ==> e == String(r.value)
  {
    if e.String? then Ok(e.s) else Err(TypeMismatch)
  }

  // ---------------------------------------------------------------------------
  // Free variables and substitution
  // ---------------------------------------------------------------------------

  function FreeVars(e: Expr): set<int>
  {
    match e
    case Unary(_, a) => FreeVars(a)
    case Binary(_, a, b) => FreeVars(a) + FreeVars(b)
    case If(c, t, f) => FreeVars(c) + FreeVars(t) + FreeVars(f)
    case Lambda(x, body) => FreeVars(body) - {x}
    case Var(x) => {x}
    case _ => {}
  }

  /** Identifiers bound by some lambda inside `e`. */
  function Binders(e: Expr): set<int>
  {
    match e
    case Unary(_, a) => Binders(a)
    case Binary(_, a, b) => Binders(a) + Binders(b)
    case If(c, t, f) => Binders(c) + Binders(t) + Binders(f)
    case Lambda(x, body) => {x} + Binders(body)
    case _ => {}
  }

  /** apply: replace the occurrences of `Var(x)` in `e` by `v`, stopping at a
      lambda that binds `x` again. Identifiers are never renamed. */
  function Apply(e: Expr, x: int, v: Expr): Expr
  {
    match e
    case Boolean(_) => e
    case Integer(_) => e
    case String(_) => e
    case Var(y) => if y == x then v else e
    case Unary(op, a) => Unary(op, Apply(a, x, v))
    case Binary(op, a, b) => Binary(op, Apply(a, x, v), Apply(b, x, v))
    case If(c, t, f) => If(Apply(c, x, v), Apply(t, x, v), Apply(f, x, v))
    case Lambda(y, body) => if y == x then e else Lambda(y, Apply(body, x, v))
  }

  /** Substituting for an identifier that is not free changes nothing. */
  lemma {:induction false} ApplyNotFree(e: Expr, x: int, v: Expr)
    requires x !in FreeVars(e)
    ensures Apply(e, x, v) == e
  {
    match e
    case Unary(_, a) => ApplyNotFree(a, x, v);
    case Binary(_, a, b) =>
      ApplyNotFree(a, x, v);
      ApplyNotFree(b, x, v);
    case If(c, t, f) =>
      ApplyNotFree(c, x, v);
      ApplyNotFree(t, x, v);
      ApplyNotFree(f, x, v);
    case Lambda(y, body) =>
      if y != x {
        ApplyNotFree(body, x, v);
      }
    case _ =>
  }

  /** Substituting a variable for itself changes nothing. */
  lemma {:induction false} ApplyIdentity(e: Expr, x: int)
    ensures Apply(e, x, Var(x)) == e
  {
    match e
    case Unary(_, a) => ApplyIdentity(a, x);
    case Binary(_, a, b) =>
      ApplyIdentity(a, x);
      ApplyIdentity(b, x);
    case If(c, t, f) =>
      ApplyIdentity(c, x);
      ApplyIdentity(t, x);
      ApplyIdentity(f, x);
    case Lambda(y, body) =>
      if y != x {
        ApplyIdentity(body, x);
      }
    case _ =>
  }

  /** After substitution the free identifiers are those of `e` other than `x`,
      possibly plus those of `v`; every free identifier of `e` other than `x`
      survives. */
  lemma {:induction false} ApplyFreeVars(e: Expr, x: int, v: Expr)
    ensures FreeVars(e) - {x} <= FreeVars(Apply(e, x, v))
    ensures FreeVars(Apply(e, x, v)) <= (FreeVars(e) - {x}) + FreeVars(v)
  {
    match e
    case Unary(_, a) => ApplyFreeVars(a, x, v);
    case Binary(_, a, b) =>
      ApplyFreeVars(a, x, v);
      ApplyFreeVars(b, x, v);
    case If(c, t, f) =>
      ApplyFreeVars(c, x, v);
      ApplyFreeVars(t, x, v);
      ApplyFreeVars(f, x, v);
    case Lambda(y, body) =>
      if y != x {
        ApplyFreeVars(body, x, v);
      }
    case _ =>
  }

  /** When no lambda of `e` binds a free identifier of `v` (so nothing is
      captured) and `x` occurs free, the free identifiers after substitution
      are exactly those of `e` without `x` together with those of `v`. */
  lemma {:induction false} ApplyFreeVarsExact(e: Expr, x: int, v: Expr)
    requires x in FreeVars(e)
    requires Binders(e) !! FreeVars(v)
    ensures FreeVars(Apply(e, x, v)) == (FreeVars(e) - {x}) + FreeVars(v)
  {
    match e
    case Unary(_, a) => ApplyFreeVarsExact(a, x, v);
    case Binary(_, a, b) =>
      if x in FreeVars(a) { ApplyFreeVarsExact(a, x, v); } else { ApplyNotFree(a, x, v); }
      if x in FreeVars(b) { ApplyFreeVarsExact(b, x, v); } else { ApplyNotFree(b, x, v); }
    case If(c, t, f) =>
      if x in FreeVars(c) { ApplyFreeVarsExact(c, x, v); } else { ApplyNotFree(c, x, v); }
      if x in FreeVars(t) { ApplyFreeVarsExact(t, x, v); } else { ApplyNotFree(t, x, v); }
      if x in FreeVars(f) { ApplyFreeVarsExact(f, x, v); } else { ApplyNotFree(f, x, v); }
    case Lambda(y, body) =>
      ApplyFreeVarsExact(body, x, v);
    case _ =>
  }

  /** Without renaming, substitution under a lambda can capture: `v1`
      substituted for `v0` inside `L1` ends up bound by that lambda. */
  lemma ApplyCaptures()
    ensures Apply(Lambda(1, Var(0)), 0, Var(1)) == Lambda(1, Var(1))
    ensures FreeVars(Lambda(1, Var(1))) == {}
  {
  }

  // ---------------------------------------------------------------------------
  // Integer division as the source language computes it
  // ---------------------------------------------------------------------------

  function Abs(a: int): nat
  {
    if a < 0 then -a else a
  }

  /** Division truncating toward zero. */
  function TruncDiv(a: int, b: int): int
    requires b != 0
  {
    var q := Abs(a) / Abs(b);
    if (a < 0) == (b < 0) then q else -q
  }

  /** The remainder that goes with `TruncDiv`. */
  function TruncMod(a: int, b: int): int
    requires b != 0
  {
    var r := Abs(a) % Abs(b);
    if a < 0 then -r else r
  }

  /** `TruncDiv` and `TruncMod` form a division: the remainder is smaller
      than the divisor and carries the sign of the dividend, and the quotient
      is the quotient of the magnitudes. */
  lemma TruncDivMod(a: int, b: int)
    requires b != 0
    ensures a == b * TruncDiv(a, b) + TruncMod(a, b)
    ensures Abs(TruncMod(a, b)) < Abs(b)
    ensures a >= 0 ==> TruncMod(a, b) >= 0
    ensures a < 0 ==> TruncMod(a, b) <= 0
    ensures Abs(TruncDiv(a, b)) == Abs(a) / Abs(b)
  {
    var n := Abs(b);
    var q, r := Abs(a) / n, Abs(a) % n;
    SignCases(a, b, q, r, TruncDiv(a, b), TruncMod(a, b));
  }

  /** The sign bookkeeping of `TruncDivMod`, for a quotient `q` and remainder
      `r` of the magnitudes. */
  lemma SignCases(a: int, b: int, q: int, r: int, d: int, k: int)
    requires b != 0 && Abs(a) == Abs(b) * q + r && 0 <= r < Abs(b) && 0 <= q
    requires d == (if (a < 0) == (b < 0) then q else -q)
    requires k == (if a < 0 then -r else r)
    ensures a == b * d + k
    ensures Abs(k) < Abs(b) && (a >= 0 ==> k >= 0) && (a < 0 ==> k <= 0) && Abs(d) == q
  {
    var n := Abs(b);
    if a >= 0 && b > 0 {
    } else if a >= 0 {
      assert (-n) * (-q) == n * q;
    } else if b > 0 {
      assert n * (-q) == -(n * q);
    } else {
      assert (-n) * q == -(n * q);
    }
  }

  // ---------------------------------------------------------------------------
  // Operators
  // ---------------------------------------------------------------------------

  /** The unary operators, applied to the evaluated operand: negation, logical
      not, string-to-integer (`#`: alphabet-encode, then read as base 94) and
      integer-to-string (`$`: base-94 digits, then alphabet-decode). */
  function EvalUnary(op: char, v: Expr): Result<Expr>
  {
    if op == '-' then
      var n :- UnwrapInt(v);
      Ok(Integer(-n))
    else if op == '!' then
      var b :- UnwrapBool(v);
      Ok(Boolean(!b))
    else if op == '#' then
      var s :- UnwrapString(v);
      var codes :- Codec.Encoded(s);
      var n :- Codec.DecodeBase94(codes);
      Ok(Integer(n))
    else if op == '$' then
      var n :- UnwrapInt(v);
      var s :- Codec.Decoded(Codec.Base94Digits(n));
      Ok(String(s))
    else
      Err(UnknownOperator(op))
  }

  predicate IsArithmetic(op: char)
  {
    op == '+' || op == '-' || op == '*' || op == '/' || op == '%' || op == '<' || op == '>'
  }

  /** Integer operators: both operands must be integers. */
  function Arithmetic(op: char, a: Expr, b: Expr): Result<Expr>
    requires IsArithmetic(op)
  {
    var x :- UnwrapInt(a);
    var y :- UnwrapInt(b);
    if op == '+' then Ok(Integer(x + y))
    else if op == '-' then Ok(Integer(x - y))
    else if op == '*' then Ok(Integer(x * y))
    else if op == '/' then (if y == 0 then Err(DivisionByZero) else Ok(Integer(TruncDiv(x, y))))
    else if op == '%' then (if y == 0 then Err(DivisionByZero) else Ok(Integer(TruncMod(x, y))))
    else if op == '<' then Ok(Boolean(x < y))
    else Ok(Boolean(x > y))
  }

  /** `=` compares two integers, two strings or two booleans. */
  function Equality(a: Expr, b: Expr): Result<Expr>
  {
    if a.Integer? && b.Integer? then Ok(Boolean(a.n == b.n))
    else if a.String? && b.String? then Ok(Boolean(a.s == b.s))
    else if a.Boolean? && b.Boolean? then Ok(Boolean(a.b == b.b))
    else Err(TypeMismatch)
  }

  /** `|` and `&` look at their right operand only when the left one does not
      decide the result. */
  function Logic(op: char, a: Expr, b: Expr): Result<Expr>
    requires op == '|' || op == '&'
  {
    var x :- UnwrapBool(a);
    if op == '|' && x then Ok(Boolean(true))
    else if op == '&' && !x then Ok(Boolean(false))
    else
      var y :- UnwrapBool(b);
      Ok(Boolean(y))
  }

  /** String operators: concatenation, and taking or dropping a prefix whose
      length must lie between 0 and the length of the string. */
  function Strings(op: char, a: Expr, b: Expr): Result<Expr>
    requires op == '.' || op == 'T' || op == 'D'
  {
    if op == '.' then
      var x :- UnwrapString(a);
      var y :- UnwrapString(b);
      Ok(String(x + y))
    else
      var x :- UnwrapInt(a);
      var s :- UnwrapString(b);
      if x < 0 || x > |s| then Err(SliceOutOfRange(x, |s|))
      else if op == 'T' then Ok(String(s[..x]))
      else Ok(String(s[x..]))
  }

  /** The binary operators, applied to two evaluated basic operands. An
      application of a value to a value is left as it is. */
  function EvalBinary(op: char, a: Expr, b: Expr): Result<Expr>
  {
    if IsArithmetic(op) then Arithmetic(op, a, b)
    else if op == '=' then Equality(a, b)
    else if op == '|' || op == '&' then Logic(op, a, b)
    else if op == '.' || op == 'T' || op == 'D' then Strings(op, a, b)
    else if op == '$' then Ok(Binary('$', a, b))
    else Err(UnknownOperator(op))
  }

  // ---------------------------------------------------------------------------
  // Evaluation
  // ---------------------------------------------------------------------------

  /** eval: values evaluate to themselves. An application whose function is
      written as a lambda substitutes the unevaluated argument into the body
      and returns that, without evaluating it. Other operators evaluate their
      operands and apply the operator when they are values; when an operand
      does not evaluate to a value the node is rebuilt around what was
      evaluated. A condition that evaluates to a value must be a boolean and
      selects the one branch that is evaluated. A bare lambda or variable
      cannot be evaluated. */
  function Eval(e: Expr): Result<Expr>
    decreases e
  {
    match e
    case Boolean(_) => Ok(e)
    case Integer(_) => Ok(e)
    case String(_) => Ok(e)
    case Unary(op, a) =>
      var va :- Eval(a);
      EvalUnary(op, va)
    case Binary(op, a, b) =>
      if op == '$' && a.Lambda? then Ok(Apply(a.body, a.binder, b))
      else
        var va :- Eval(a);
        var vb :- Eval(b);
        if IsBasic(va) && IsBasic(vb) then EvalBinary(op, va, vb)
        else Ok(Binary(op, va, vb))
    case If(c, t, f) =>
      var vc :- Eval(c);
      if IsBasic(vc) then
        var cond :- UnwrapBool(vc);
        if cond then Eval(t) else Eval(f)
      else Ok(If(vc, t, f))
    case Lambda(_, _) => Err(Unsupported)
    case Var(_) => Err(Unsupported)
  }

  /** Evaluation never introduces free identifiers. */
  lemma {:induction false} EvalFreeVars(e: Expr)
    requires Eval(e).Ok?
    ensures FreeVars(Eval(e).value) <= FreeVars(e)
    decreases e, 1
  {
    if e.Unary? {
      EvalFreeVars(e.arg);
    } else if e.Binary? {
      EvalFreeVarsBinary(e);
    } else if e.If? {
      EvalFreeVarsIf(e);
    }
  }

  lemma {:induction false} EvalFreeVarsBinary(e: Expr)
    requires e.Binary? && Eval(e).Ok?
    ensures FreeVars(Eval(e).value) <= FreeVars(e)
    decreases e, 0
  {
    var op, a, b := e.bop, e.left, e.right;
    if op == '$' && a.Lambda? {
      ApplyFreeVars(a.body, a.binder, b);
    } else {
      EvalFreeVars(a);
      EvalFreeVars(b);
      var va, vb := Eval(a).value, Eval(b).value;
      if IsBasic(va) && IsBasic(vb) {
        BinaryValueClosed(op, va, vb);
      }
    }
  }

  lemma BinaryValueClosed(op: char, a: Expr, b: Expr)
    requires IsBasic(a) && IsBasic(b) && EvalBinary(op, a, b).Ok?
    ensures FreeVars(EvalBinary(op, a, b).value) == {}
  {
  }

  lemma {:induction false} EvalFreeVarsIf(e: Expr)
    requires e.If? && Eval(e).Ok?
    ensures FreeVars(Eval(e).value) <= FreeVars(e)
    decreases e, 0
  {
    var c, t, f := e.cond, e.thn, e.els;
    EvalFreeVars(c);
    var vc := Eval(c).value;
    if IsBasic(vc) {
      if vc.b { EvalFreeVars(t); } else { EvalFreeVars(f); }
    }
  }

  /** A closed tree evaluates to a closed tree. */
  lemma EvalKeepsClosed(e: Expr)
    requires FreeVars(e) == {}
    requires Eval(e).Ok?
    ensures FreeVars(Eval(e).value) == {}
  {
    EvalFreeVars(e);
  }

  /** Values are left as they are, and a basic result is a fixpoint. */
  lemma EvalOfValue(e: Expr)
    requires IsBasic(e)
    ensures Eval(e) == Ok(e)
  {
  }

  /** Application of a written lambda performs one substitution and does not
      evaluate the argument, so it succeeds even when the argument cannot be
      evaluated. */
  lemma EvalApplication(x: int, body: Expr, arg: Expr)
    ensures Eval(Binary('$', Lambda(x, body), arg)) == Ok(Apply(body, x, arg))
    ensures Eval(Binary('$', Lambda(0, Integer(1)), Var(5))) == Ok(Integer(1))
    ensures Eval(Var(5)).Err?
  {
  }

  /** A bare variable or lambda is not evaluated: it is the unsupported
      expression of the source's last match arm. */
  lemma EvalUnsupported(y: int, b: Expr)
    ensures Eval(Var(y)) == Err(Unsupported)
    ensures Eval(Lambda(y, b)) == Err(Unsupported)
  {
  }

  /** A binary node whose operands do not both evaluate to values is rebuilt
      around the evaluated operands, with the same operator. */
  lemma EvalBinaryPartial(op: char, a: Expr, b: Expr)
    requires !(op == '$' && a.Lambda?)
    requires Eval(a).Ok? && Eval(b).Ok?
    requires !IsBasic(Eval(a).value) || !IsBasic(Eval(b).value)
    ensures Eval(Binary(op, a, b)) == Ok(Binary(op, Eval(a).value, Eval(b).value))
  {
  }

  /** The conditional: a boolean condition selects exactly one branch, whose
      result is the result, and the other branch is not looked at; a
      non-boolean value is an error; a condition that is not a value rebuilds
      the node with the original branches. */
  lemma EvalIf(c: Expr, t: Expr, f: Expr, other: Expr)
    ensures Eval(c) == Ok(Boolean(true)) ==>
      Eval(If(c, t, f)) == Eval(t) && Eval(If(c, t, other)) == Eval(t)
    ensures Eval(c) == Ok(Boolean(false)) ==>
      Eval(If(c, t, f)) == Eval(f) && Eval(If(c, other, f)) == Eval(f)
    ensures Eval(c).Ok? && IsBasic(Eval(c).value) && !Eval(c).value.Boolean? ==>
      Eval(If(c, t, f)) == Err(TypeMismatch)
    ensures Eval(c).Ok? && !IsBasic(Eval(c).value) ==>
      Eval(If(c, t, f)) == Ok(If(Eval(c).value, t, f))
    ensures Eval(c).Err? ==> Eval(If(c, t, f)) == Err(Eval(c).error)
  {
  }

  /** `=` on two values: their equality when they are of the same kind, an
      error otherwise. */
  lemma EvalEquality(a: Expr, b: Expr)
    requires IsBasic(a) && IsBasic(b)
    ensures (a.Integer? && b.Integer?) || (a.String? && b.String?) || (a.Boolean? && b.Boolean?)
      ==> Eval(Binary('=', a, b)) == Ok(Boolean(a == b))
    ensures !((a.Integer? && b.Integer?) || (a.String? && b.String?) || (a.Boolean? && b.Boolean?))
      ==> Eval(Binary('=', a, b)) == Err(TypeMismatch)
  {
  }

  /** Division and remainder of integers follow `TruncDiv`/`TruncMod`, and a
      zero divisor is an error. */
  lemma EvalDivision(x: int, y: int)
    ensures y == 0 ==> Eval(Binary('/', Integer(x), Integer(y))) == Err(DivisionByZero)
    ensures y == 0 ==> Eval(Binary('%', Integer(x), Integer(y))) == Err(DivisionByZero)
    ensures y != 0 ==> Eval(Binary('/', Integer(x), Integer(y))) == Ok(Integer(TruncDiv(x, y)))
    ensures y != 0 ==> Eval(Binary('%', Integer(x), Integer(y))) == Ok(Integer(TruncMod(x, y)))
  {
  }

  /** Taking and then dropping the same number of characters splits a string
      in two; a count outside 0..|s| is an error. */
  lemma TakeThenDrop(x: int, s: string)
    ensures 0 <= x <= |s| ==>
      Eval(Binary('.', Binary('T', Integer(x), String(s)), Binary('D', Integer(x), String(s))))
        == Ok(String(s))
    ensures (x < 0 || x > |s|) ==>
      Eval(Binary('T', Integer(x), String(s))) == Err(SliceOutOfRange(x, |s|)) &&
      Eval(Binary('D', Integer(x), String(s))) == Err(SliceOutOfRange(x, |s|))
  {
    if 0 <= x <= |s| {
      assert Eval(Binary('T', Integer(x), String(s))) == Ok(String(s[..x]));
      assert Eval(Binary('D', Integer(x), String(s))) == Ok(String(s[x..]));
      assert s[..x] + s[x..] == s;
    }
  }

  /** `U#` undoes `U$` on every non-negative integer. */
  lemma IntToStringToInt(n: int)
    requires n >= 0
    ensures Eval(Unary('#', Unary('$', Integer(n)))) == Ok(Integer(n))
  {
    var digits := Codec.Base94Digits(n);
    Codec.DecodeThenEncode(digits);
    var text := Codec.Decoded(digits).value;
    IntToStringStep(n, text);
    EvalUnaryOf('#', Unary('$', Integer(n)), String(text));
    Codec.Base94RoundTrip(n);
    StringToIntStep(text, digits, n);
  }

  /** `U$` undoes `U#` on every string over the alphabet that does not start
      with `a`, the symbol of digit zero; a leading `a` is lost, as a leading
      zero of a number is. */
  lemma StringToIntToString(s: string)
    requires forall c <- s :: c in Codec.Alphabet
    ensures s == [] || s[0] != 'a' ==>
      Eval(Unary('$', Unary('#', String(s)))) == Ok(String(s))
    ensures Eval(Unary('$', Unary('#', String("ab")))) == Ok(String("b"))
  {
    if s == [] || s[0] != 'a' {
      Codec.EncodeThenDecode(s);
      var codes := Codec.Encoded(s).value;
      if s != [] {
        LeadingCode(s, codes);
      }
      Codec.Base94Canonical(codes);
      var n := Codec.DecodeBase94(codes).value;
      StringToIntStep(s, codes, n);
      EvalUnaryOf('$', Unary('#', String(s)), Integer(n));
      IntToStringStep(n, s);
    }
    StringToIntExample();
  }

  lemma LeadingCode(s: string, codes: seq<char>)
    requires s != [] && s[0] != 'a'
    requires Codec.Encoded(s) == Ok(codes)
    ensures codes[0] != '!'
  {
    var c := s[0];
    assert Codec.EncodeChar(c) == Ok(codes[0]);
    LeadingSymbol(c);
  }

  /** Only `a`, the table's first symbol, encodes to the zero digit `!`. */
  lemma LeadingSymbol(c: char)
    requires c != 'a' && Codec.EncodeChar(c).Ok?
    ensures Codec.EncodeChar(c).value != '!'
  {
  }

  /** Evaluating a binary node (not an application of a lambda) whose operands
      evaluate to values applies the operator to those values. */
  lemma EvalBinaryOfValues(op: char, a: Expr, b: Expr, va: Expr, vb: Expr)
    requires !(op == '$' && a.Lambda?)
    requires Eval(a) == Ok(va) && Eval(b) == Ok(vb) && IsBasic(va) && IsBasic(vb)
    ensures Eval(Binary(op, a, b)) == EvalBinary(op, va, vb)
  {
  }

  /** A binary node (not an application of a lambda) fails as its first
      failing operand fails. */
  lemma EvalBinaryLeftFails(op: char, a: Expr, b: Expr)
    requires !(op == '$' && a.Lambda?)
    requires Eval(a).Err?
    ensures Eval(Binary(op, a, b)) == Err(Eval(a).error)
  {
  }

  lemma EvalUnaryOf(op: char, a: Expr, v: Expr)
    requires Eval(a) == Ok(v)
    ensures Eval(Unary(op, a)) == EvalUnary(op, v)
  {
  }

  lemma IntToStringStep(n: int, text: string)
    requires Codec.Decoded(Codec.Base94Digits(n)) == Ok(text)
    ensures Eval(Unary('$', Integer(n))) == Ok(String(text))
  {
    assert EvalUnary('$', Integer(n)) == Ok(String(text));
  }

  lemma StringToIntStep(s: string, codes: seq<char>, n: int)
    requires Codec.Encoded(s) == Ok(codes)
    requires Codec.DecodeBase94(codes) == Ok(n)
    ensures EvalUnary('#', String(s)) == Ok(Integer(n))
  {
  }

  lemma StringToIntExample()
    ensures Eval(Unary('$', Unary('#', String("ab")))) == Ok(String("b"))
  {
    EncodeAB();
    DigitsOfOne();
    StringToIntStep("ab", "!\"", 1);
    EvalUnaryOf('$', Unary('#', String("ab")), Integer(1));
    DecodeB();
    IntToStringStep(1, "b");
  }

  lemma DigitsOfOne()
    ensures Codec.DecodeBase94("!\"") == Ok(1)
    ensures Codec.Base94Digits(1) == "\""
  {
    assert "!\""[..1] == "!";
    assert "!"[..0] == "";
  }

  lemma EncodeAB()
    ensures Codec.Encoded("ab") == Ok("!\"")
  {
    Codec.CodeOfEntry(0);
    Codec.CodeOfEntry(1);
    assert Codec.TableEntry(0) == 'a' && Codec.TableEntry(1) == 'b';
    var r := Codec.Encoded("ab");
    assert forall c <- "ab" :: Codec.EncodeChar(c).Ok?;
    assert r.Ok? && r.value == "!\"";
  }

  lemma DecodeB()
    ensures Codec.Decoded("\"") == Ok("b")
  {
    assert Codec.DecodeChar('"') == Ok('b');
    var r := Codec.Decoded("\"");
    assert forall c <- "\"" :: Codec.DecodeChar(c).Ok?;
    assert r.Ok? && r.value == "b";
  }

  /** The integer operator examples listed in `test_binary_operators`, with their
      operand tokens decoded (`I#` is 2, `I$` is 3 and `I(` is 7). */
  lemma ArithmeticExamples()
    ensures Eval(Binary('+', Integer(2), Integer(3))) == Ok(Integer(5))
    ensures Eval(Binary('-', Integer(3), Integer(2))) == Ok(Integer(1))
    ensures Eval(Binary('*', Integer(3), Integer(2))) == Ok(Integer(6))
    ensures Eval(Unary('-', Integer(3))) == Ok(Integer(-3))
  {
  }

  lemma DivisionExamples()
    ensures Eval(Binary('/', Unary('-', Integer(7)), Integer(2))) == Ok(Integer(-3))
    ensures Eval(Binary('%', Unary('-', Integer(7)), Integer(2))) == Ok(Integer(-1))
  {
  }

  lemma ComparisonExamples()
    ensures Eval(Binary('<', Integer(3), Integer(2))) == Ok(Boolean(false))
    ensures Eval(Binary('>', Integer(3), Integer(2))) == Ok(Boolean(true))
    ensures Eval(Binary('=', Integer(3), Integer(2))) == Ok(Boolean(false))
  {
  }

  lemma LogicExamples()
    ensures Eval(Binary('|', Boolean(true), Boolean(false))) == Ok(Boolean(true))
    ensures Eval(Binary('&', Boolean(true), Boolean(false))) == Ok(Boolean(false))
    ensures Eval(Unary('!', Boolean(true))) == Ok(Boolean(false))
    ensures Eval(Binary('|', Boolean(true), Integer(1))) == Ok(Boolean(true))
    ensures Eval(Binary('&', Boolean(false), Integer(1))) == Ok(Boolean(false))
    ensures Eval(Binary('|', Boolean(false), Integer(1))) == Err(TypeMismatch)
  {
  }

  /** The string examples, with `S4%` decoded to "te", `S34` to "st" and
      `S4%34` to "test". */
  lemma StringExamples()
    ensures Eval(Binary('.', String("te"), String("st"))) == Ok(String("test"))
    ensures Eval(Binary('T', Integer(3), String("test"))) == Ok(String("tes"))
    ensures Eval(Binary('D', Integer(3), String("test"))) == Ok(String("t"))
  {
    assert "te" + "st" == "test";
    assert "test"[..3] == "tes";
    assert "test"[3..] == "t";
  }

  /** The conditional example `? B> I# I$ S9%3 S./`, whose branches decode to
      "yes" and "no". */
  lemma IfExample()
    ensures Eval(If(Binary('>', Integer(2), Integer(3)), String("yes"), String("no")))
      == Ok(String("no"))
  {
  }

  /** The reduction sequence listed in `test_lambda_operator`: one evaluation of
      `B$ L" B+ v" v" B* I$ I#` substitutes the product into the body, and a
      second evaluation computes 12. */
  lemma ApplicationSteps()
    ensures var product := Binary('*', Integer(3), Integer(2));
      Eval(Binary('$', Lambda(1, Binary('+', Var(1), Var(1))), product))
        == Ok(Binary('+', product, product))
    ensures Eval(Binary('+', Binary('*', Integer(3), Integer(2)), Binary('*', Integer(3), Integer(2))))
      == Ok(Integer(12))
  {
  }
}
