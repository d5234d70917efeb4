/** The lexer: split the program text on runs of whitespace and classify each
    piece by its first character (the indicator). */
module Lexer {
  import opened Outcome
  import Codec

  datatype Token =
    | Boolean(b: bool)
    | Integer(n: int)
    | String(s: string)
    | Unary(uop: char)
    | Binary(bop: char)
    | If
    | Lambda(binder: int)
    | Var(id: int)

  /** The characters the regular expression `\s` matches: Unicode White_Space. */
  predicate IsWhitespace(c: char)
  {
    var x := c as int;
    (0x09 <= x <= 0x0D) || x == 0x20 || x == 0x85 || x == 0xA0 || x == 0x1680
    || (0x2000 <= x <= 0x200A) || x == 0x2028 || x == 0x2029 || x == 0x202F
    || x == 0x205F || x == 0x3000
  }

  predicate NoWhitespace(s: string)
  {
    forall c <- s :: !IsWhitespace(c)
  }

  /** Index of the first whitespace character of `s`, or |s| if there is none. */
  function FirstWhitespace(s: string): (i: nat)
    ensures i <= |s|
    ensures forall k :: 0 <= k < i ==> !IsWhitespace(s[k])
    ensures i < |s| ==> IsWhitespace(s[i])
  {
    if s == [] || IsWhitespace(s[0]) then 0 else 1 + FirstWhitespace(s[1..])
  }

  /** End of the maximal run of whitespace that starts at `i`. */
  function RunEnd(s: string, i: nat): (j: nat)
    requires i <= |s|
    ensures i <= j <= |s|
    ensures forall k :: i <= k < j ==> IsWhitespace(s[k])
    ensures j < |s| ==> !IsWhitespace(s[j])
    decreases |s| - i
  {
    if i < |s| && IsWhitespace(s[i]) then RunEnd(s, i + 1) else i
  }

  /** split_string: the pieces between maximal runs of whitespace. Leading or
      trailing whitespace yields an empty first or last piece, and the empty
      text yields one empty piece. */
  function SplitString(s: string): (parts: seq<string>)
    ensures |parts| >= 1
    decreases |s|
  {
    var i := FirstWhitespace(s);
    if i == |s| then [s]
    else
      var j := RunEnd(s, i);
      [s[..i]] + SplitString(s[j..])
  }

  /** The non-whitespace characters of `s`, in order. */
  function WithoutWhitespace(s: string): string
  {
    if s == [] then []
    else if IsWhitespace(s[0]) then WithoutWhitespace(s[1..])
    else [s[0]] + WithoutWhitespace(s[1..])
  }

  function Concat(parts: seq<string>): string
  {
    if parts == [] then [] else parts[0] + Concat(parts[1..])
  }

  lemma {:induction false} WithoutWhitespaceAppend(a: string, b: string)
    ensures WithoutWhitespace(a + b) == WithoutWhitespace(a) + WithoutWhitespace(b)
  {
    if a != [] {
      assert (a + b)[1..] == a[1..] + b;
      WithoutWhitespaceAppend(a[1..], b);
    } else {
      assert a + b == b;
    }
  }

  lemma {:induction false} WithoutWhitespaceOfClean(s: string)
    requires NoWhitespace(s)
    ensures WithoutWhitespace(s) == s
  {
    if s != [] {
      assert s[0] in s;
      assert forall c <- s[1..] :: c in s;
      WithoutWhitespaceOfClean(s[1..]);
    }
  }

  lemma {:induction false} WithoutWhitespaceOfRun(s: string)
    requires forall c <- s :: IsWhitespace(c)
    ensures WithoutWhitespace(s) == []
  {
    if s != [] {
      assert s[0] in s;
      assert forall c <- s[1..] :: c in s;
      WithoutWhitespaceOfRun(s[1..]);
    }
  }

  /** Splitting loses exactly the whitespace: the pieces, glued back
      together, are the text with its whitespace removed. */
  lemma {:induction false} SplitDropsOnlyWhitespace(s: string)
    ensures Concat(SplitString(s)) == WithoutWhitespace(s)
    decreases |s|
  {
    var i := FirstWhitespace(s);
    if i == |s| {
      assert SplitString(s) == [s];
      WithoutWhitespaceOfClean(s);
    } else {
      var j := RunEnd(s, i);
      SplitDropsOnlyWhitespace(s[j..]);
      SplitStep(s, i, j);
      WithoutWhitespaceStep(s, i, j);
      ConcatCons(s[..i], SplitString(s[j..]));
    }
  }

  lemma SplitStep(s: string, i: nat, j: nat)
    requires i == FirstWhitespace(s) < |s| && j == RunEnd(s, i)
    ensures SplitString(s) == [s[..i]] + SplitString(s[j..])
  {
  }

  lemma WithoutWhitespaceStep(s: string, i: nat, j: nat)
    requires i == FirstWhitespace(s) < |s| && j == RunEnd(s, i)
    ensures WithoutWhitespace(s) == s[..i] + WithoutWhitespace(s[j..])
  {
    var head, run, tail := s[..i], s[i..j], s[j..];
    ThreeParts(s, i, j);
    WithoutWhitespaceAppend(head, run + tail);
    WithoutWhitespaceAppend(run, tail);
    WithoutWhitespaceOfClean(head);
    WithoutWhitespaceOfRun(run);
  }

  lemma ThreeParts<T>(s: seq<T>, i: nat, j: nat)
    requires i <= j <= |s|
    ensures s == s[..i] + (s[i..j] + s[j..])
  {
  }

  lemma ConcatCons(p: string, rest: seq<string>)
    ensures Concat([p] + rest) == p + Concat(rest)
  {
    assert ([p] + rest)[1..] == rest;
  }

  /** Text that neither starts nor ends with whitespace splits into non-empty
      pieces only, so every piece has an indicator character. */
  lemma {:induction false} SplitOfTrimmedText(s: string)
    requires s != [] && !IsWhitespace(s[0]) && !IsWhitespace(s[|s| - 1])
    ensures forall p <- SplitString(s) :: p != []
    decreases |s|
  {
    var i := FirstWhitespace(s);
    if i < |s| {
      var j := RunEnd(s, i);
      SplitOfTrimmedText(s[j..]);
    }
  }

  lemma SplitOfClean(p: string)
    requires NoWhitespace(p)
    ensures SplitString(p) == [p]
  {
    assert forall k :: 0 <= k < |p| ==> p[k] in p;
  }

  /** Every piece of a split is free of whitespace. */
  lemma {:induction false} SplitPiecesClean(s: string)
    ensures forall p <- SplitString(s) :: NoWhitespace(p)
    decreases |s|
  {
    var i := FirstWhitespace(s);
    if i < |s| {
      var j := RunEnd(s, i);
      SplitPiecesClean(s[j..]);
      SplitStep(s, i, j);
      assert forall c <- s[..i] :: !IsWhitespace(c);
    } else {
      assert forall c <- s :: !IsWhitespace(c);
    }
  }

  /** Pieces joined by the given separators: `seps[k]` goes between
      `parts[k]` and `parts[k + 1]`. */
  function JoinWith(parts: seq<string>, seps: seq<string>): string
    requires |parts| >= 1 && |seps| == |parts| - 1
  {
    if |parts| == 1 then parts[0]
    else parts[0] + seps[0] + JoinWith(parts[1..], seps[1..])
  }

  /** Separators that are non-empty runs of whitespace. */
  predicate Separators(seps: seq<string>)
  {
    forall sep <- seps :: sep != [] && forall c <- sep :: IsWhitespace(c)
  }

  /** Joining non-empty, whitespace-free pieces with any non-empty runs of
      whitespace and splitting the result gives the pieces back: the split
      is the inverse of every way of writing the pieces apart. */
  lemma {:induction false} SplitJoinWith(parts: seq<string>, seps: seq<string>)
    requires |parts| >= 1 && |seps| == |parts| - 1
    requires forall p <- parts :: p != [] && NoWhitespace(p)
    requires Separators(seps)
    ensures SplitString(JoinWith(parts, seps)) == parts
  {
    var p := parts[0];
    assert p in parts;
    if |parts| == 1 {
      SplitOfClean(p);
    } else {
      var rest := JoinWith(parts[1..], seps[1..]);
      assert parts[1] in parts;
      assert forall q <- parts[1..] :: q in parts;
      assert seps[0] in seps;
      assert forall sep <- seps[1..] :: sep in seps;
      SplitJoinWith(parts[1..], seps[1..]);
      JoinWithStartsWithFirst(parts[1..], seps[1..]);
      assert parts[1][0] in parts[1];
      SplitAtRun(p, seps[0], rest);
    }
  }

  lemma {:induction false} JoinWithStartsWithFirst(parts: seq<string>, seps: seq<string>)
    requires |parts| >= 1 && |seps| == |parts| - 1 && parts[0] != []
    ensures JoinWith(parts, seps) != [] && JoinWith(parts, seps)[0] == parts[0][0]
  {
  }

  lemma SplitAtRun(p: string, sep: string, rest: string)
    requires NoWhitespace(p)
    requires sep != [] && forall c <- sep :: IsWhitespace(c)
    requires rest != [] && !IsWhitespace(rest[0])
    ensures SplitString(p + sep + rest) == [p] + SplitString(rest)
  {
    var s := p + sep + rest;
    var i, j := |p|, |p| + |sep|;
    assert FirstWhitespace(s) == i by {
      assert forall k :: 0 <= k < i ==> s[k] == p[k] && p[k] in p;
      assert s[i] == sep[0] && sep[0] in sep;
    }
    assert RunEnd(s, i) == j by {
      assert forall k :: i <= k < j ==> s[k] == sep[k - i] && sep[k - i] in sep;
      assert s[j] == rest[0];
      RunEndAt(s, i, j);
    }
    SplitStep(s, i, j);
    assert s[..i] == p;
    assert s[j..] == rest;
  }

  /** A run of whitespace from `i` up to a non-whitespace character at `j`
      ends at `j`. */
  lemma {:induction false} RunEndAt(s: string, i: nat, j: nat)
    requires i <= j < |s|
    requires forall k :: i <= k < j ==> IsWhitespace(s[k])
    requires !IsWhitespace(s[j])
    ensures RunEnd(s, i) == j
    decreases j - i
  {
    if i < j {
      RunEndAt(s, i + 1, j);
    }
  }

  /** parse_token: dispatch on the indicator character. `T`/`F` ignore the
      rest; `U`/`B` take the operator from the second character; `I`, `L` and
      `v` read the rest as a base-94 number and `S` as alphabet codes. */
  function ParseToken(s: string): Result<Token>
  {
    if s == [] then Err(EmptyToken)
    else
      match s[0]
      case 'T' => Ok(Boolean(true))
      case 'F' => Ok(Boolean(false))
      case 'I' =>
        var n :- Codec.DecodeBase94(s[1..]);
        Ok(Integer(n))
      case 'S' =>
        var text :- Codec.Decoded(s[1..]);
        Ok(String(text))
      case 'U' => if |s| < 2 then Err(MissingOperator(s)) else Ok(Unary(s[1]))
      case 'B' => if |s| < 2 then Err(MissingOperator(s)) else Ok(Binary(s[1]))
      case '?' => Ok(If)
      case 'L' =>
        var x :- Codec.DecodeBase94(s[1..]);
        Ok(Lambda(x))
      case 'v' =>
        var x :- Codec.DecodeBase94(s[1..]);
        Ok(Var(x))
      case _ => Err(UnknownIndicator(s[0], s))
  }

  /** The tokens of the pieces, in order, stopping at the first piece that
      does not parse. */
  function ParseAll(parts: seq<string>): (r: Result<seq<Token>>)
    ensures r.Ok? ==> |r.value| == |parts|
    ensures r.Ok? ==> forall k :: 0 <= k < |parts| ==> ParseToken(parts[k]) == Ok(r.value[k])
    ensures r.Err? <==> exists p <- parts :: ParseToken(p).Err?
  {
    if parts == [] then Ok([])
    else
      assert parts == parts[..|parts| - 1] + [parts[|parts| - 1]];
      var init :- ParseAll(parts[..|parts| - 1]);
      var t :- ParseToken(parts[|parts| - 1]);
      Ok(init + [t])
  }

  /** What tokenize computes. */
  function Lex(s: string): Result<seq<Token>>
  {
    ParseAll(SplitString(s))
  }

  lemma {:induction false} ParseAllStops(p: seq<string>, q: seq<string>)
    requires ParseAll(p).Err?
    ensures ParseAll(p + q) == ParseAll(p)
    decreases |q|
  {
    if q != [] {
      var pq := p + q;
      assert pq[..|pq| - 1] == p + q[..|q| - 1];
      ParseAllStops(p, q[..|q| - 1]);
      assert ParseAll(pq[..|pq| - 1]).Err?;
    } else {
      assert p + q == p;
    }
  }

  /** tokenize: split, then push the token of every piece. */
  method Tokenize(s: string) returns (r: Result<seq<Token>>)
    ensures r == Lex(s)
  {
    var parts := SplitString(s);
    var res: seq<Token> := [];
    for i := 0 to |parts|
      invariant ParseAll(parts[..i]) == Ok(res)
    {
      assert parts[..i + 1][..i] == parts[..i];
      var t := ParseToken(parts[i]);
      if t.Err? {
        ParseAllStops(parts[..i + 1], parts[i + 1..]);
        assert parts[..i + 1] + parts[i + 1..] == parts;
        return Err(t.error);
      }
      res := res + [t.value];
    }
    assert parts[..|parts|] == parts;
    r := Ok(res);
  }

  // ---------------------------------------------------------------------------
  // The wire form of a token
  // ---------------------------------------------------------------------------

  /** Tokens that have a text form: numbers and identifiers are not negative
      (the format has no sign), strings are over the alphabet, and operators
      are not whitespace. */
  predicate WellFormed(t: Token)
  {
    match t
    case Integer(n) => n >= 0
    case String(s) => forall c <- s :: c in Codec.Alphabet
    case Unary(op) => !IsWhitespace(op)
    case Binary(op) => !IsWhitespace(op)
    case Lambda(x) => x >= 0
    case Var(x) => x >= 0
    case _ => true
  }

  /** The text of a token: its indicator followed by its payload (strings are
      sent this way, `"S" + encode_string(text)`). */
  function TokenText(t: Token): string
    requires WellFormed(t)
  {
    match t
    case Boolean(b) => if b then "T" else "F"
    case Integer(n) => "I" + Codec.Base94Digits(n)
    case String(s) =>
      Codec.EncodeThenDecode(s);
      "S" + Codec.Encoded(s).value
    case Unary(op) => "U" + [op]
    case Binary(op) => "B" + [op]
    case If => "?"
    case Lambda(x) => "L" + Codec.Base94Digits(x)
    case Var(x) => "v" + Codec.Base94Digits(x)
  }

  lemma PrintableIsNotWhitespace(s: string)
    requires forall c <- s :: Codec.IsPrintable(c)
    ensures NoWhitespace(s)
  {
  }

  /** The text of a well-formed token is a non-empty whitespace-free piece
      that parses back to the token. */
  lemma ParseTokenText(t: Token)
    requires WellFormed(t)
    ensures TokenText(t) != [] && NoWhitespace(TokenText(t))
    ensures ParseToken(TokenText(t)) == Ok(t)
  {
    var text := TokenText(t);
    match t
    case Integer(n) =>
      assert text[1..] == Codec.Base94Digits(n);
      Codec.Base94RoundTrip(n);
      PrintableIsNotWhitespace(Codec.Base94Digits(n));
    case Lambda(x) =>
      assert text[1..] == Codec.Base94Digits(x);
      Codec.Base94RoundTrip(x);
      PrintableIsNotWhitespace(Codec.Base94Digits(x));
    case Var(x) =>
      assert text[1..] == Codec.Base94Digits(x);
      Codec.Base94RoundTrip(x);
      PrintableIsNotWhitespace(Codec.Base94Digits(x));
    case String(s) =>
      Codec.EncodeThenDecode(s);
      assert text[1..] == Codec.Encoded(s).value;
      PrintableIsNotWhitespace(Codec.Encoded(s).value);
    case _ =>
  }

  function TextsOf(ts: seq<Token>): (texts: seq<string>)
    requires forall t <- ts :: WellFormed(t)
    ensures |texts| == |ts|
    ensures forall k :: 0 <= k < |ts| ==> texts[k] == TokenText(ts[k])
  {
    if ts == [] then [] else [TokenText(ts[0])] + TextsOf(ts[1..])
  }

  lemma {:induction false} ParseAllOfParsed(parts: seq<string>, ts: seq<Token>)
    requires |parts| == |ts|
    requires forall k :: 0 <= k < |parts| ==> ParseToken(parts[k]) == Ok(ts[k])
    ensures ParseAll(parts) == Ok(ts)
  {
    if parts != [] {
      var n := |parts| - 1;
      ParseAllOfParsed(parts[..n], ts[..n]);
      assert ts == ts[..n] + [ts[n]];
    }
  }

  /** Lexing the texts of well-formed tokens, written apart by any runs of
      whitespace, gives the tokens back. */
  lemma LexTokenTexts(ts: seq<Token>, seps: seq<string>)
    requires |ts| >= 1 && |seps| == |ts| - 1
    requires forall t <- ts :: WellFormed(t)
    requires Separators(seps)
    ensures Lex(JoinWith(TextsOf(ts), seps)) == Ok(ts)
  {
    var texts := TextsOf(ts);
    forall k | 0 <= k < |ts|
      ensures texts[k] != [] && NoWhitespace(texts[k])
      ensures ParseToken(texts[k]) == Ok(ts[k])
    {
      assert ts[k] in ts;
      ParseTokenText(ts[k]);
    }
    SplitJoinWith(texts, seps);
    ParseAllOfParsed(texts, ts);
  }

  /** The examples of the source's unit tests: `I/6` is 1337 and `SB%,,/}Q/2,$_` is "Hello World!". */
  lemma ParseTokenExamples()
    ensures ParseToken("I/6") == Ok(Integer(1337))
    ensures ParseToken("SB%,,/}Q/2,$_") == Ok(String("Hello World!"))
  {
    assert "I/6"[1..] == "/6";
    assert Codec.DecodeBase94("/6") == Ok(1337) by {
      assert "/6"[..1] == "/";
      assert Codec.DecodeBase94("/") == Ok(14) by {
        assert "/"[..0] == "";
      }
    }
    var codes := "B%,,/}Q/2,$_";
    var text := "Hello World!";
    assert "SB%,,/}Q/2,$_"[1..] == codes;
    forall k | 0 <= k < |codes|
      ensures Codec.DecodeChar(codes[k]) == Ok(text[k])
    {
    }
    var r := Codec.Decoded(codes);
    assert forall c <- codes :: Codec.DecodeChar(c).Ok?;
    assert r.value == text;
  }
}
