/** Expression trees and the recursive-descent builder that reads them off a
    token stream in prefix order. */
module Ast {
  import opened Outcome
  import Lexer

  type Token = Lexer.Token

  datatype Expr =
    | Boolean(b: bool)
    | Integer(n: int)
    | String(s: string)
    | Unary(uop: char, arg: Expr)
    | Binary(bop: char, left: Expr, right: Expr)
    | If(cond: Expr, thn: Expr, els: Expr)
    | Lambda(binder: int, body: Expr)
    | Var(id: int)

  /** is_basic: booleans, integers and strings are values. */
  predicate IsBasic(e: Expr)
  {
    e.Boolean? || e.Integer? || e.String?
  }

  /** The tokens of a tree in prefix order: each node's token followed by the
      tokens of its children, left to right. */
  function Serialize(e: Expr): (ts: seq<Token>)
    ensures |ts| >= 1
  {
    match e
    case Boolean(b) => [Lexer.Boolean(b)]
    case Integer(n) => [Lexer.Integer(n)]
    case String(s) => [Lexer.String(s)]
    case Unary(op, a) => [Lexer.Unary(op)] + Serialize(a)
    case Binary(op, a, b) => [Lexer.Binary(op)] + Serialize(a) + Serialize(b)
    case If(c, t, f) => [Lexer.If] + Serialize(c) + Serialize(t) + Serialize(f)
    case Lambda(x, body) => [Lexer.Lambda(x)] + Serialize(body)
    case Var(x) => [Lexer.Var(x)]
  }

  /** create_ast: build the tree whose first token is at `idx` and return it
      with the index just past its last token. Literals and variables take no
      further tokens, unary operators and lambdas one subtree, binary
      operators two and `?` three. Running off the end of the stream is an
      error. */
  function CreateAst(tokens: seq<Token>, idx: nat): (r: Result<(Expr, nat)>)
    ensures r.Ok? ==> idx < r.value.1 <= |tokens|
    ensures r.Err? ==> r.error.OutOfBounds? && r.error.index >= |tokens| && r.error.length == |tokens|
    decreases |tokens| - idx
  {
    if idx >= |tokens| then Err(OutOfBounds(idx, |tokens|))
    else
      match tokens[idx]
      case Boolean(b) => Ok((Boolean(b), idx + 1))
      case Integer(n) => Ok((Integer(n), idx + 1))
      case String(s) => Ok((String(s), idx + 1))
      case Unary(op) =>
        var a :- CreateAst(tokens, idx + 1);
        Ok((Unary(op, a.0), a.1))
      case Binary(op) =>
        var a :- CreateAst(tokens, idx + 1);
        var b :- CreateAst(tokens, a.1);
        Ok((Binary(op, a.0, b.0), b.1))
      case If =>
        var c :- CreateAst(tokens, idx + 1);
        var t :- CreateAst(tokens, c.1);
        var f :- CreateAst(tokens, t.1);
        Ok((If(c.0, t.0, f.0), f.1))
      case Lambda(x) =>
        var body :- CreateAst(tokens, idx + 1);
        Ok((Lambda(x, body.0), body.1))
      case Var(x) => Ok((Var(x), idx + 1))
  }

  /** The builder reads back exactly the tree whose prefix tokens start at
      `idx`, whatever precedes or follows them. */
  lemma CreateAstOfSerialized(pre: seq<Token>, e: Expr, rest: seq<Token>)
    ensures CreateAst(pre + Serialize(e) + rest, |pre|) == Ok((e, |pre| + |Serialize(e)|))
  {
    var tokens := pre + Serialize(e) + rest;
    assert tokens[|pre|..|pre| + |Serialize(e)|] == Serialize(e);
    ReadAt(tokens, |pre|, e);
  }

  /** The same, for a tree whose tokens sit at `idx` of any stream. */
  lemma {:induction false} ReadAt(tokens: seq<Token>, idx: nat, e: Expr)
    requires idx + |Serialize(e)| <= |tokens| && tokens[idx..idx + |Serialize(e)|] == Serialize(e)
    ensures CreateAst(tokens, idx) == Ok((e, idx + |Serialize(e)|))
    decreases e, 2
  {
    if e.Unary? || e.Lambda? {
      LocateOneChild(tokens, idx, e);
    } else if e.Binary? {
      LocateBinary(tokens, idx, e);
    } else if e.If? {
      LocateIf(tokens, idx, e);
    } else {
      assert tokens[idx] == tokens[idx..idx + 1][0];
    }
  }

  lemma {:induction false} LocateOneChild(tokens: seq<Token>, idx: nat, e: Expr)
    requires e.Unary? || e.Lambda?
    requires idx + |Serialize(e)| <= |tokens| && tokens[idx..idx + |Serialize(e)|] == Serialize(e)
    ensures CreateAst(tokens, idx) == Ok((e, idx + |Serialize(e)|))
    decreases e, 1
  {
    var a := if e.Unary? then e.arg else e.body;
    var head := if e.Unary? then Lexer.Unary(e.uop) else Lexer.Lambda(e.binder);
    assert Serialize(e) == [head] + Serialize(a);
    Pieces2(tokens, idx, head, Serialize(a));
    ReadOneChild(tokens, idx, e, idx + 1 + |Serialize(a)|);
  }

  lemma {:induction false} LocateBinary(tokens: seq<Token>, idx: nat, e: Expr)
    requires e.Binary?
    requires idx + |Serialize(e)| <= |tokens| && tokens[idx..idx + |Serialize(e)|] == Serialize(e)
    ensures CreateAst(tokens, idx) == Ok((e, idx + |Serialize(e)|))
    decreases e, 1
  {
    var x, y := Serialize(e.left), Serialize(e.right);
    assert Serialize(e) == [Lexer.Binary(e.bop)] + x + y;
    Pieces3(tokens, idx, Lexer.Binary(e.bop), x, y);
    ReadBinary(tokens, idx, e, idx + 1 + |x|, idx + 1 + |x| + |y|);
  }

  lemma {:induction false} LocateIf(tokens: seq<Token>, idx: nat, e: Expr)
    requires e.If?
    requires idx + |Serialize(e)| <= |tokens| && tokens[idx..idx + |Serialize(e)|] == Serialize(e)
    ensures CreateAst(tokens, idx) == Ok((e, idx + |Serialize(e)|))
    decreases e, 1
  {
    var x, y, z := Serialize(e.cond), Serialize(e.thn), Serialize(e.els);
    assert Serialize(e) == [Lexer.If] + x + y + z;
    Pieces4(tokens, idx, Lexer.If, x, y, z);
    ReadIf(tokens, idx, e, idx + 1 + |x|, idx + 1 + |x| + |y|, idx + 1 + |x| + |y| + |z|);
  }

  lemma {:induction false} ReadOneChild(tokens: seq<Token>, idx: nat, e: Expr, n1: nat)
    requires e.Unary? || e.Lambda?
    requires idx < |tokens| && tokens[idx] == (if e.Unary? then Lexer.Unary(e.uop) else Lexer.Lambda(e.binder))
    requires var a := if e.Unary? then e.arg else e.body;
      n1 == idx + 1 + |Serialize(a)| && n1 <= |tokens| && tokens[idx + 1..n1] == Serialize(a)
    ensures CreateAst(tokens, idx) == Ok((e, n1))
    decreases e, 0
  {
    if e.Unary? {
      ReadAt(tokens, idx + 1, e.arg);
      BuildUnary(tokens, idx, e.uop, e.arg, n1);
    } else {
      ReadAt(tokens, idx + 1, e.body);
      BuildLambda(tokens, idx, e.binder, e.body, n1);
    }
  }

  lemma {:induction false} ReadBinary(tokens: seq<Token>, idx: nat, e: Expr, n1: nat, n2: nat)
    requires e.Binary?
    requires idx < |tokens| && tokens[idx] == Lexer.Binary(e.bop)
    requires n1 == idx + 1 + |Serialize(e.left)| && n2 == n1 + |Serialize(e.right)| && n2 <= |tokens|
    requires tokens[idx + 1..n1] == Serialize(e.left) && tokens[n1..n2] == Serialize(e.right)
    ensures CreateAst(tokens, idx) == Ok((e, n2))
    decreases e, 0
  {
    ReadAt(tokens, idx + 1, e.left);
    ReadAt(tokens, n1, e.right);
    BuildBinary(tokens, idx, e.bop, e.left, n1, e.right, n2);
  }

  lemma {:induction false} ReadIf(tokens: seq<Token>, idx: nat, e: Expr, n1: nat, n2: nat, n3: nat)
    requires e.If?
    requires idx < |tokens| && tokens[idx] == Lexer.If
    requires n1 == idx + 1 + |Serialize(e.cond)| && n2 == n1 + |Serialize(e.thn)|
    requires n3 == n2 + |Serialize(e.els)| && n3 <= |tokens|
    requires tokens[idx + 1..n1] == Serialize(e.cond) && tokens[n1..n2] == Serialize(e.thn)
    requires tokens[n2..n3] == Serialize(e.els)
    ensures CreateAst(tokens, idx) == Ok((e, n3))
    decreases e, 0
  {
    ReadAt(tokens, idx + 1, e.cond);
    ReadAt(tokens, n1, e.thn);
    ReadAt(tokens, n2, e.els);
    BuildIf(tokens, idx, e.cond, n1, e.thn, n2, e.els, n3);
  }

  /** Where the pieces of a node's tokens sit in a stream holding them at `i`. */
  lemma Pieces2<T>(s: seq<T>, i: nat, h: T, x: seq<T>)
    requires i + 1 + |x| <= |s| && s[i..i + 1 + |x|] == [h] + x
    ensures s[i] == h && s[i + 1..i + 1 + |x|] == x
  {
    Piece(s, i, [h] + x, 0, 1);
    Piece(s, i, [h] + x, 1, 1 + |x|);
  }

  lemma Pieces3<T>(s: seq<T>, i: nat, h: T, x: seq<T>, y: seq<T>)
    requires i + 1 + |x| + |y| <= |s| && s[i..i + 1 + |x| + |y|] == [h] + x + y
    ensures s[i] == h && s[i + 1..i + 1 + |x|] == x
    ensures s[i + 1 + |x|..i + 1 + |x| + |y|] == y
  {
    var w := [h] + x + y;
    Piece(s, i, w, 0, 1);
    Piece(s, i, w, 1, 1 + |x|);
    Piece(s, i, w, 1 + |x|, |w|);
  }

  lemma Pieces4<T>(s: seq<T>, i: nat, h: T, x: seq<T>, y: seq<T>, z: seq<T>)
    requires i + 1 + |x| + |y| + |z| <= |s| && s[i..i + 1 + |x| + |y| + |z|] == [h] + x + y + z
    ensures s[i] == h && s[i + 1..i + 1 + |x|] == x
    ensures s[i + 1 + |x|..i + 1 + |x| + |y|] == y
    ensures s[i + 1 + |x| + |y|..i + 1 + |x| + |y| + |z|] == z
  {
    var w := [h] + x + y + z;
    Piece(s, i, w, 0, 1);
    Piece(s, i, w, 1, 1 + |x|);
    Piece(s, i, w, 1 + |x|, 1 + |x| + |y|);
    Piece(s, i, w, 1 + |x| + |y|, |w|);
  }

  /** A slice of a slice is a slice. */
  lemma Piece<T>(s: seq<T>, i: nat, w: seq<T>, a: nat, b: nat)
    requires i + |w| <= |s| && s[i..i + |w|] == w && a <= b <= |w|
    ensures s[i + a..i + b] == w[a..b]
  {
    forall k | 0 <= k < b - a
      ensures s[i + a..i + b][k] == w[a..b][k]
    {
      assert s[i + a + k] == s[i..i + |w|][a + k];
    }
  }

  lemma BuildUnary(tokens: seq<Token>, idx: nat, op: char, a: Expr, na: nat)
    requires idx < |tokens| && tokens[idx] == Lexer.Unary(op)
    requires CreateAst(tokens, idx + 1) == Ok((a, na))
    ensures CreateAst(tokens, idx) == Ok((Unary(op, a), na))
  {
  }

  lemma BuildLambda(tokens: seq<Token>, idx: nat, x: int, a: Expr, na: nat)
    requires idx < |tokens| && tokens[idx] == Lexer.Lambda(x)
    requires CreateAst(tokens, idx + 1) == Ok((a, na))
    ensures CreateAst(tokens, idx) == Ok((Lambda(x, a), na))
  {
  }

  lemma BuildBinary(tokens: seq<Token>, idx: nat, op: char, a: Expr, na: nat, b: Expr, nb: nat)
    requires idx < |tokens| && tokens[idx] == Lexer.Binary(op)
    requires CreateAst(tokens, idx + 1) == Ok((a, na))
    requires CreateAst(tokens, na) == Ok((b, nb))
    ensures CreateAst(tokens, idx) == Ok((Binary(op, a, b), nb))
  {
  }

  lemma BuildIf(tokens: seq<Token>, idx: nat, c: Expr, nc: nat, t: Expr, nt: nat, f: Expr, nf: nat)
    requires idx < |tokens| && tokens[idx] == Lexer.If
    requires CreateAst(tokens, idx + 1) == Ok((c, nc))
    requires CreateAst(tokens, nc) == Ok((t, nt))
    requires CreateAst(tokens, nt) == Ok((f, nf))
    ensures CreateAst(tokens, idx) == Ok((If(c, t, f), nf))
  {
  }

  /** Conversely, a successful build consumed exactly the prefix tokens of the
      tree it returns. */
  lemma {:induction false} CreateAstConsumesSerialized(tokens: seq<Token>, idx: nat)
    requires CreateAst(tokens, idx).Ok?
    ensures var (e, next) := CreateAst(tokens, idx).value;
      tokens[idx..next] == Serialize(e)
    decreases |tokens| - idx, 1
  {
    var t := tokens[idx];
    if t.Unary? || t.Lambda? {
      ConsumeOneChild(tokens, idx);
    } else if t.Binary? {
      ConsumeBinary(tokens, idx);
    } else if t.If? {
      ConsumeIf(tokens, idx);
    } else {
      var (e, next) := CreateAst(tokens, idx).value;
      assert next == idx + 1;
      assert tokens[idx..next] == [t];
    }
  }

  lemma {:induction false} ConsumeOneChild(tokens: seq<Token>, idx: nat)
    requires CreateAst(tokens, idx).Ok?
    requires tokens[idx].Unary? || tokens[idx].Lambda?
    ensures var (e, next) := CreateAst(tokens, idx).value;
      tokens[idx..next] == Serialize(e)
    decreases |tokens| - idx, 0
  {
    var (e, next) := CreateAst(tokens, idx).value;
    var sub := CreateAst(tokens, idx + 1);
    assert sub.Ok? && sub.value.1 == next;
    assert Serialize(e) == [tokens[idx]] + Serialize(sub.value.0);
    CreateAstConsumesSerialized(tokens, idx + 1);
    assert tokens[idx..next] == [tokens[idx]] + tokens[idx + 1..next];
  }

  lemma {:induction false} ConsumeBinary(tokens: seq<Token>, idx: nat)
    requires CreateAst(tokens, idx).Ok?
    requires tokens[idx].Binary?
    ensures var (e, next) := CreateAst(tokens, idx).value;
      tokens[idx..next] == Serialize(e)
    decreases |tokens| - idx, 0
  {
    var (e, next) := CreateAst(tokens, idx).value;
    var a := CreateAst(tokens, idx + 1);
    assert a.Ok?;
    var b := CreateAst(tokens, a.value.1);
    assert b.Ok? && b.value.1 == next;
    assert Serialize(e) == [tokens[idx]] + Serialize(a.value.0) + Serialize(b.value.0);
    CreateAstConsumesSerialized(tokens, idx + 1);
    CreateAstConsumesSerialized(tokens, a.value.1);
    SliceSplit3(tokens, idx, a.value.1, next);
  }

  lemma {:induction false} ConsumeIf(tokens: seq<Token>, idx: nat)
    requires CreateAst(tokens, idx).Ok?
    requires tokens[idx].If?
    ensures var (e, next) := CreateAst(tokens, idx).value;
      tokens[idx..next] == Serialize(e)
    decreases |tokens| - idx, 0
  {
    var (e, next) := CreateAst(tokens, idx).value;
    var c := CreateAst(tokens, idx + 1);
    assert c.Ok?;
    var t := CreateAst(tokens, c.value.1);
    assert t.Ok?;
    var f := CreateAst(tokens, t.value.1);
    assert f.Ok? && f.value.1 == next;
    assert Serialize(e) == [tokens[idx]] + Serialize(c.value.0) + Serialize(t.value.0) + Serialize(f.value.0);
    CreateAstConsumesSerialized(tokens, idx + 1);
    CreateAstConsumesSerialized(tokens, c.value.1);
    CreateAstConsumesSerialized(tokens, t.value.1);
    SliceSplit4(tokens, idx, c.value.1, t.value.1, next);
  }

  lemma SliceSplit3<T>(s: seq<T>, i: nat, j: nat, k: nat)
    requires i < j <= k <= |s|
    ensures s[i..k] == [s[i]] + s[i + 1..j] + s[j..k]
  {
  }

  lemma SliceSplit4<T>(s: seq<T>, i: nat, j: nat, k: nat, l: nat)
    requires i < j <= k <= l <= |s|
    ensures s[i..l] == [s[i]] + s[i + 1..j] + s[j..k] + s[k..l]
  {
  }

  /** Tokens after the tree do not change what is built. */
  lemma CreateAstIgnoresTrailing(tokens: seq<Token>, more: seq<Token>, idx: nat)
    requires CreateAst(tokens, idx).Ok?
    ensures CreateAst(tokens + more, idx) == CreateAst(tokens, idx)
  {
    var (e, next) := CreateAst(tokens, idx).value;
    CreateAstConsumesSerialized(tokens, idx);
    assert tokens + more == tokens[..idx] + Serialize(e) + (tokens[next..] + more);
    CreateAstOfSerialized(tokens[..idx], e, tokens[next..] + more);
  }

  /** The builder fails exactly when no complete tree starts at `idx`, that is,
      when it would need a token at or beyond the end of the stream. */
  lemma CreateAstFailsIffNoTree(tokens: seq<Token>, idx: nat)
    ensures CreateAst(tokens, idx).Err? <==>
      forall e: Expr, n: int :: idx <= n <= |tokens| ==> tokens[idx..n] != Serialize(e)
  {
    if CreateAst(tokens, idx).Ok? {
      var (e, next) := CreateAst(tokens, idx).value;
      CreateAstConsumesSerialized(tokens, idx);
    } else {
      forall e: Expr, n: int | idx <= n <= |tokens|
        ensures tokens[idx..n] != Serialize(e)
      {
        if tokens[idx..n] == Serialize(e) {
          assert tokens == tokens[..idx] + Serialize(e) + tokens[n..];
          CreateAstOfSerialized(tokens[..idx], e, tokens[n..]);
        }
      }
    }
  }

  /** parse_into_ast: tokenize, then build the tree that starts at the first
      token; any tokens after it are ignored. */
  function ParseIntoAst(s: string): Result<Expr>
  {
    var tokens :- Lexer.Lex(s);
    var built :- CreateAst(tokens, 0);
    Ok(built.0)
  }

  /** Trees whose every token has a text form. */
  predicate Printable(e: Expr)
  {
    forall t <- Serialize(e) :: Lexer.WellFormed(t)
  }

  /** Reading the text of a tree, followed by any further well-formed tokens,
      with the token texts written apart by any runs of whitespace, gives back
      the tree. */
  lemma ParseIntoAstOfText(e: Expr, more: seq<Token>, seps: seq<string>)
    requires Printable(e)
    requires forall t <- more :: Lexer.WellFormed(t)
    requires |seps| == |Serialize(e) + more| - 1 && Lexer.Separators(seps)
    ensures ParseIntoAst(Lexer.JoinWith(Lexer.TextsOf(Serialize(e) + more), seps)) == Ok(e)
  {
    var ts := Serialize(e) + more;
    AllWellFormed(Serialize(e), more);
    Lexer.LexTokenTexts(ts, seps);
    CreateAstOfSerializedAtStart(e, more);
  }

  lemma CreateAstOfSerializedAtStart(e: Expr, more: seq<Token>)
    ensures CreateAst(Serialize(e) + more, 0) == Ok((e, |Serialize(e)|))
  {
    var empty: seq<Token> := [];
    assert empty + Serialize(e) + more == Serialize(e) + more;
    CreateAstOfSerialized(empty, e, more);
  }

  lemma AllWellFormed(a: seq<Token>, b: seq<Token>)
    requires forall t <- a :: Lexer.WellFormed(t)
    requires forall t <- b :: Lexer.WellFormed(t)
    ensures forall t <- a + b :: Lexer.WellFormed(t)
  {
  }
}
