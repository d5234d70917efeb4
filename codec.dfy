/** The two codecs of the wire format: base-94 integers, whose digit value is
    the character code minus 33 ('!' is digit 0), and the fixed 94-symbol
    alphabet in which string payloads are written (code 33 + k stands for the
    k-th symbol of the table). */
module Codec {
  import opened Outcome

  /** `c as u8`: the code point truncated to its low byte. */
  function ByteOf(c: char): nat
  {
    c as int % 256
  }

  /** A printable code, one that the alphabet and the base-94 digits use. */
  predicate IsPrintable(c: char)
  {
    33 <= c as int <= 126
  }

  // ---------------------------------------------------------------------------
  // Base-94 integers
  // ---------------------------------------------------------------------------

  /** Value of a digit string, most significant digit first: each step
      multiplies by 94 and adds `byte - 33`; a byte below 33 makes the u8
      subtraction underflow, which is an error. */
  function DecodeBase94(s: seq<char>): (r: Result<int>)
    ensures r.Ok? ==> r.value >= 0
    ensures r.Err? <==> exists c <- s :: ByteOf(c) < 33
  {
    if s == [] then Ok(0)
    else
      assert s == s[..|s| - 1] + [s[|s| - 1]];
      var high :- DecodeBase94(s[..|s| - 1]);
      var c := s[|s| - 1];
      if ByteOf(c) < 33 then Err(DigitUnderflow(c))
      else Ok(high * 94 + (ByteOf(c) - 33))
  }

  /** Base-94 digits of `n`, most significant first; zero and negative
      numbers have no digits. */
  function Base94Digits(n: int): (s: seq<char>)
    ensures forall c <- s :: IsPrintable(c)
    ensures s == [] <==> n <= 0
    decreases n
  {
    if n <= 0 then [] else Base94Digits(n / 94) + [(n % 94 + 33) as char]
  }

  /** Once a prefix fails to decode, so does every extension of it, with the
      same error: decoding stops at the first bad digit. */
  lemma {:induction false} DecodeBase94Stops(p: seq<char>, q: seq<char>)
    requires DecodeBase94(p).Err?
    ensures DecodeBase94(p + q) == DecodeBase94(p)
    decreases |q|
  {
    if q != [] {
      var pq := p + q;
      assert pq[..|pq| - 1] == p + q[..|q| - 1];
      DecodeBase94Stops(p, q[..|q| - 1]);
      assert DecodeBase94(pq[..|pq| - 1]).Err?;
    } else {
      assert p + q == p;
    }
  }

  /** base94_string_to_int: the loop `res *= 94; res += c - '!'`. */
  method Base94StringToInt(chars: seq<char>) returns (r: Result<int>)
    ensures r == DecodeBase94(chars)
  {
    var res := 0;
    for i := 0 to |chars|
      invariant DecodeBase94(chars[..i]) == Ok(res)
    {
      var c := chars[i];
      if ByteOf(c) < 33 {
        DecodeBase94FailsAt(chars, i);
        return Err(DigitUnderflow(c));
      }
      DecodeBase94Extends(chars, i, res);
      res := res * 94;
      res := res + (ByteOf(c) - 33);
    }
    assert chars[..|chars|] == chars;
    r := Ok(res);
  }

  lemma DecodeBase94Extends(s: seq<char>, i: nat, res: int)
    requires i < |s| && DecodeBase94(s[..i]) == Ok(res) && ByteOf(s[i]) >= 33
    ensures DecodeBase94(s[..i + 1]) == Ok(res * 94 + (ByteOf(s[i]) - 33))
  {
    assert s[..i + 1][..i] == s[..i];
  }

  lemma DecodeBase94FailsAt(s: seq<char>, i: nat)
    requires i < |s| && DecodeBase94(s[..i]).Ok? && ByteOf(s[i]) < 33
    ensures DecodeBase94(s) == Err(DigitUnderflow(s[i]))
  {
    var p := s[..i + 1];
    assert p[..|p| - 1] == s[..i];
    DecodeBase94Stops(p, s[i + 1..]);
    SplitAt(s, i + 1);
  }

  /** `s` read backwards. */
  function Reversed<T>(s: seq<T>): (r: seq<T>)
    ensures |r| == |s|
  {
    if s == [] then [] else Reversed(s[1..]) + [s[0]]
  }

  lemma {:induction false} ReversedAppend<T>(s: seq<T>, x: T)
    ensures Reversed(s + [x]) == [x] + Reversed(s)
  {
    if s != [] {
      assert (s + [x])[1..] == s[1..] + [x];
      ReversedAppend(s[1..], x);
    }
  }

  /** int_to_base94_string: push the low digit while `x > 0`, then reverse. */
  method IntToBase94String(x: int) returns (s: seq<char>)
    ensures s == Base94Digits(x)
  {
    var n := x;
    var res: seq<char> := [];
    while n > 0
      invariant Base94Digits(x) == Base94Digits(n) + Reversed(res)
    {
      var d := n % 94;
      var c := (d + 33) as char;
      ReversedAppend(res, c);
      res := res + [c];
      n := n / 94;
    }
    s := Reversed(res);
  }

  /** Decoding the encoding of a non-negative number gives it back; zero is
      encoded by the empty digit string, and the empty string decodes to 0. */
  lemma {:induction false} Base94RoundTrip(n: int)
    requires n >= 0
    ensures DecodeBase94(Base94Digits(n)) == Ok(n)
  {
    if n > 0 {
      Base94RoundTrip(n / 94);
      var s := Base94Digits(n);
      assert s[..|s| - 1] == Base94Digits(n / 94);
    }
  }

  /** The encoding of a positive number never starts with digit 0 ('!'). */
  lemma {:induction false} Base94NoLeadingZero(n: int)
    requires n > 0
    ensures Base94Digits(n)[0] != '!'
  {
    if n / 94 > 0 {
      Base94NoLeadingZero(n / 94);
    }
  }

  /** A printable digit string without a leading '!' is the encoding of its
      own value: the encoding is the unique canonical one. */
  lemma {:induction false} Base94Canonical(s: seq<char>)
    requires forall c <- s :: IsPrintable(c)
    requires s == [] || s[0] != '!'
    ensures DecodeBase94(s).Ok?
    ensures s != [] ==> DecodeBase94(s).value > 0
    ensures Base94Digits(DecodeBase94(s).value) == s
  {
    if s != [] {
      var high := s[..|s| - 1];
      var c := s[|s| - 1];
      assert forall x <- high :: x in s;
      Base94Canonical(high);
      var h := DecodeBase94(high).value;
      var n := h * 94 + (c as int - 33);
      assert c in s;
      assert ByteOf(c) == c as int;
      assert DecodeBase94(s) == Ok(n);
      assert n / 94 == h && n % 94 == c as int - 33;
      assert high == [] ==> c == s[0];
      assert s == high + [c];
    }
  }

  // ---------------------------------------------------------------------------
  // The 94-symbol alphabet
  // ---------------------------------------------------------------------------

  const Lowercase: string := "abcdefghijklmnopqrstuvwxyz"
  const Uppercase: string := "ABCDEFGHIJKLMNOPQRSTUVWXYZ"
  const DecimalDigits: string := "0123456789"
  const Symbols: string := "!\"#$%&'()*+,-./:;<=>?@[\\]^_`|~ \n"

  /** The translation table: code `33 + k` stands for `Alphabet[k]`. */
  const Alphabet: string := Lowercase + Uppercase + DecimalDigits + Symbols

  /** The k-th symbol of the table, computed from ASCII ranges: the table
      lists the letters and digits, then the punctuation runs `!`..`/`,
      `:`..`@` and `[`..`` ` ``, then `|`, `~`, space and newline. */
  function TableEntry(k: int): char
    requires 0 <= k < 94
  {
    if k < 26 then ('a' as int + k) as char
    else if k < 52 then ('A' as int + (k - 26)) as char
    else if k < 62 then ('0' as int + (k - 52)) as char
    else if k < 77 then ('!' as int + (k - 62)) as char
    else if k < 84 then (':' as int + (k - 77)) as char
    else if k < 90 then ('[' as int + (k - 84)) as char
    else if k == 90 then '|'
    else if k == 91 then '~'
    else if k == 92 then ' '
    else '\n'
  }

  /** Position of `c` in the table, computed from its ASCII range; -1 for a
      character that is not in the table, such as `{` and `}`. */
  function TablePosition(c: char): int
  {
    var x := c as int;
    if 'a' as int <= x <= 'z' as int then x - 'a' as int
    else if 'A' as int <= x <= 'Z' as int then x - 'A' as int + 26
    else if '0' as int <= x <= '9' as int then x - '0' as int + 52
    else if '!' as int <= x <= '/' as int then x - '!' as int + 62
    else if ':' as int <= x <= '@' as int then x - ':' as int + 77
    else if '[' as int <= x <= '`' as int then x - '[' as int + 84
    else if c == '|' then 90
    else if c == '~' then 91
    else if c == ' ' then 92
    else if c == '\n' then 93
    else -1
  }

  lemma LowercaseEntries(k: int)
    requires 0 <= k < 26
    ensures Lowercase[k] == TableEntry(k)
  {
  }

  lemma UppercaseEntries(k: int)
    requires 0 <= k < 26
    ensures Uppercase[k] == TableEntry(k + 26)
  {
  }

  lemma DecimalDigitEntries(k: int)
    requires 0 <= k < 10
    ensures DecimalDigits[k] == TableEntry(k + 52)
  {
  }

  lemma SymbolEntries(k: int)
    requires 0 <= k < 32
    ensures Symbols[k] == TableEntry(k + 62)
  {
  }

  /** The range formula reproduces the table literally, entry by entry. */
  lemma AlphabetEntry(k: int)
    requires 0 <= k < |Alphabet|
    ensures |Alphabet| == 94
    ensures Alphabet[k] == TableEntry(k)
  {
    if k < 26 {
      LowercaseEntries(k);
    } else if k < 52 {
      UppercaseEntries(k - 26);
    } else if k < 62 {
      DecimalDigitEntries(k - 52);
    } else {
      SymbolEntries(k - 62);
    }
  }

  /** Position and entry are inverse: every entry sits at its own position, */
  lemma PositionOfEntry(k: int)
    requires 0 <= k < 94
    ensures TablePosition(TableEntry(k)) == k
  {
  }

  /** and every character with a position is the entry at that position. */
  lemma EntryAtPosition(c: char)
    requires TablePosition(c) != -1
    ensures 0 <= TablePosition(c) < 94 && TableEntry(TablePosition(c)) == c
  {
  }

  /** The table has 94 pairwise distinct symbols. */
  lemma AlphabetDistinct(i: int, j: int)
    requires 0 <= i < |Alphabet| && 0 <= j < |Alphabet|
    requires Alphabet[i] == Alphabet[j]
    ensures |Alphabet| == 94
    ensures i == j
  {
    AlphabetEntry(i);
    AlphabetEntry(j);
    PositionOfEntry(i);
    PositionOfEntry(j);
  }

  /** Reverse lookup in the table (what the reverse map answers). */
  function AlphabetIndex(c: char): Option<nat>
  {
    var p := TablePosition(c);
    if p < 0 then None else Some(p)
  }

  /** The reverse lookup finds exactly the table's symbols, at their index. */
  lemma AlphabetIndexFinds(c: char)
    ensures AlphabetIndex(c).Some? ==>
      AlphabetIndex(c).value < |Alphabet| && Alphabet[AlphabetIndex(c).value] == c
    ensures AlphabetIndex(c).None? <==> c !in Alphabet
  {
    if TablePosition(c) < 0 {
      if c in Alphabet {
        var k :| 0 <= k < |Alphabet| && Alphabet[k] == c;
        AlphabetEntry(k);
        PositionOfEntry(k);
      }
    } else {
      EntryAtPosition(c);
      AlphabetEntry(TablePosition(c));
    }
  }

  /** The reverse lookup of the k-th entry is k. */
  lemma IndexOfEntry(k: int)
    requires 0 <= k < |Alphabet|
    ensures AlphabetIndex(Alphabet[k]) == Some(k)
  {
    AlphabetEntry(k);
    PositionOfEntry(k);
  }

  /** TRANSLATION_TABLE_REVERSE: insert `(symbol, index)` for every entry, in
      table order. */
  method BuildReverseTable() returns (table: map<char, nat>)
    ensures forall k :: 0 <= k < |Alphabet| ==> Alphabet[k] in table && table[Alphabet[k]] == k
    ensures forall c :: c in table <==> AlphabetIndex(c).Some?
    ensures forall c :: c in table ==> AlphabetIndex(c) == Some(table[c])
  {
    table := map[];
    AlphabetEntry(0);
    for idx := 0 to |Alphabet|
      invariant forall k :: 0 <= k < idx ==> TableEntry(k) in table && table[TableEntry(k)] == k
      invariant forall c :: c in table ==> AlphabetIndex(c) == Some(table[c]) && table[c] < idx
    {
      var c := Alphabet[idx];
      AlphabetEntry(idx);
      PositionOfEntry(idx);
      table := table[c := idx];
    }
    ReverseTableMeaning(table);
  }

  /** A table holding every entry at its index, and only symbols that the
      reverse lookup finds, is the reverse lookup. */
  lemma ReverseTableMeaning(table: map<char, nat>)
    requires forall k :: 0 <= k < 94 ==> TableEntry(k) in table && table[TableEntry(k)] == k
    requires forall c :: c in table ==> AlphabetIndex(c) == Some(table[c])
    ensures forall k :: 0 <= k < |Alphabet| ==> Alphabet[k] in table && table[Alphabet[k]] == k
    ensures forall c :: c in table <==> AlphabetIndex(c).Some?
  {
    forall k | 0 <= k < |Alphabet|
      ensures Alphabet[k] in table && table[Alphabet[k]] == k
    {
      AlphabetEntry(k);
    }
    forall c | AlphabetIndex(c).Some?
      ensures c in table
    {
      EntryAtPosition(c);
    }
  }

  /** One step of decode_string: the byte of `c` must lie in 33..126, and
      then names the table entry `byte - 33` (see AlphabetEntry). */
  function DecodeChar(c: char): Result<char>
  {
    var code := ByteOf(c);
    if code < 33 || code > 126 then Err(InvalidCode(c)) else Ok(TableEntry(code - 33))
  }

  /** One step of encode_string: `33 + index` of the symbol in the table. */
  function EncodeChar(c: char): Result<char>
  {
    match AlphabetIndex(c)
    case None => Err(NotInAlphabet(c))
    case Some(k) => Ok((k + 33) as char)
  }

  /** decode_string: codes to symbols, failing at the first bad code. */
  function Decoded(cs: seq<char>): (r: Result<string>)
    ensures r.Ok? ==> |r.value| == |cs|
    ensures r.Ok? ==> forall k :: 0 <= k < |cs| ==> DecodeChar(cs[k]) == Ok(r.value[k])
    ensures r.Err? <==> exists c <- cs :: DecodeChar(c).Err?
  {
    if cs == [] then Ok([])
    else
      assert cs == cs[..|cs| - 1] + [cs[|cs| - 1]];
      var init :- Decoded(cs[..|cs| - 1]);
      var c :- DecodeChar(cs[|cs| - 1]);
      Ok(init + [c])
  }

  /** encode_string: symbols to codes, failing at the first symbol that is
      not in the table. */
  function Encoded(s: string): (r: Result<seq<char>>)
    ensures r.Ok? ==> |r.value| == |s|
    ensures r.Ok? ==> forall k :: 0 <= k < |s| ==> EncodeChar(s[k]) == Ok(r.value[k])
    ensures r.Err? <==> exists c <- s :: EncodeChar(c).Err?
  {
    if s == [] then Ok([])
    else
      assert s == s[..|s| - 1] + [s[|s| - 1]];
      var init :- Encoded(s[..|s| - 1]);
      var c :- EncodeChar(s[|s| - 1]);
      Ok(init + [c])
  }

  /** Decoding stops at the first bad code. */
  lemma {:induction false} DecodedStops(p: seq<char>, q: seq<char>)
    requires Decoded(p).Err?
    ensures Decoded(p + q) == Decoded(p)
    decreases |q|
  {
    if q != [] {
      var pq := p + q;
      assert pq[..|pq| - 1] == p + q[..|q| - 1];
      DecodedStops(p, q[..|q| - 1]);
      assert Decoded(pq[..|pq| - 1]).Err?;
    } else {
      assert p + q == p;
    }
  }

  /** Encoding stops at the first symbol outside the table. */
  lemma {:induction false} EncodedStops(p: string, q: string)
    requires Encoded(p).Err?
    ensures Encoded(p + q) == Encoded(p)
    decreases |q|
  {
    if q != [] {
      var pq := p + q;
      assert pq[..|pq| - 1] == p + q[..|q| - 1];
      EncodedStops(p, q[..|q| - 1]);
      assert Encoded(pq[..|pq| - 1]).Err?;
    } else {
      assert p + q == p;
    }
  }

  /** decode_string's push loop. */
  method DecodeString(chars: seq<char>) returns (r: Result<string>)
    ensures r == Decoded(chars)
  {
    var res: string := [];
    for i := 0 to |chars|
      invariant Decoded(chars[..i]) == Ok(res)
    {
      assert chars[..i + 1][..i] == chars[..i];
      var c := chars[i];
      var code := ByteOf(c);
      if code < 33 || code > 126 {
        DecodedStops(chars[..i + 1], chars[i + 1..]);
        SplitAt(chars, i + 1);
        return Err(InvalidCode(c));
      }
      AlphabetEntry(code - 33);
      res := res + [Alphabet[code - 33]];
    }
    assert chars[..|chars|] == chars;
    r := Ok(res);
  }

  /** encode_string's push loop over the reverse table. */
  method EncodeString(s: string) returns (r: Result<seq<char>>)
    ensures r == Encoded(s)
  {
    var table := BuildReverseTable();
    var res: seq<char> := [];
    for i := 0 to |s|
      invariant Encoded(s[..i]) == Ok(res)
    {
      var c := s[i];
      if c !in table {
        EncodedFailsAt(s, i);
        return Err(NotInAlphabet(c));
      }
      EncodedExtends(s, i, res, table[c]);
      res := res + [(table[c] + 33) as char];
    }
    assert s[..|s|] == s;
    r := Ok(res);
  }

  lemma EncodedExtends(s: string, i: nat, res: seq<char>, k: nat)
    requires i < |s| && Encoded(s[..i]) == Ok(res)
    requires AlphabetIndex(s[i]) == Some(k)
    ensures Encoded(s[..i + 1]) == Ok(res + [(k + 33) as char])
  {
    assert s[..i + 1][..i] == s[..i];
  }

  lemma EncodedFailsAt(s: string, i: nat)
    requires i < |s| && Encoded(s[..i]).Ok?
    requires AlphabetIndex(s[i]).None?
    ensures Encoded(s) == Err(NotInAlphabet(s[i]))
  {
    var p := s[..i + 1];
    assert p[..|p| - 1] == s[..i];
    EncodedLastFails(p);
    EncodedStops(p, s[i + 1..]);
    SplitAt(s, i + 1);
  }

  lemma SplitAt<T>(s: seq<T>, k: nat)
    requires k <= |s|
    ensures s[..k] + s[k..] == s
  {
  }

  lemma EncodedLastFails(p: string)
    requires p != [] && Encoded(p[..|p| - 1]).Ok?
    requires AlphabetIndex(p[|p| - 1]).None?
    ensures Encoded(p) == Err(NotInAlphabet(p[|p| - 1]))
  {
    assert EncodeChar(p[|p| - 1]) == Err(NotInAlphabet(p[|p| - 1]));
  }

  /** The code of the k-th entry is 33 + k, and decoding that code gives the
      entry back. */
  lemma CodeOfEntry(k: int)
    requires 0 <= k < 94
    ensures EncodeChar(TableEntry(k)) == Ok((k + 33) as char)
    ensures IsPrintable((k + 33) as char)
    ensures DecodeChar((k + 33) as char) == Ok(TableEntry(k))
  {
    PositionOfEntry(k);
    assert ByteOf((k + 33) as char) == k + 33;
  }

  /** Encoding a string over the table and decoding the codes gives it back. */
  lemma EncodeThenDecode(s: string)
    requires forall c <- s :: c in Alphabet
    ensures Encoded(s).Ok?
    ensures forall c <- Encoded(s).value :: IsPrintable(c)
    ensures Decoded(Encoded(s).value) == Ok(s)
  {
    forall c <- s
      ensures EncodeChar(c).Ok?
    {
      AlphabetIndexFinds(c);
    }
    var cs := Encoded(s).value;
    forall k | 0 <= k < |s|
      ensures IsPrintable(cs[k]) && DecodeChar(cs[k]) == Ok(s[k])
    {
      assert s[k] in s;
      AlphabetIndexFinds(s[k]);
      var i := AlphabetIndex(s[k]).value;
      EntryAtPosition(s[k]);
      CodeOfEntry(i);
    }
    assert forall c <- cs :: DecodeChar(c).Ok?;
    assert Decoded(cs).value == s;
  }

  /** A printable code decodes to a table symbol whose code it is. */
  lemma DecodeThenEncodeChar(c: char)
    requires IsPrintable(c)
    ensures DecodeChar(c).Ok?
    ensures DecodeChar(c).value in Alphabet
    ensures EncodeChar(DecodeChar(c).value) == Ok(c)
  {
    var i := c as int - 33;
    assert ByteOf(c) == c as int;
    CodeOfEntry(i);
    assert (i + 33) as char == c;
    AlphabetEntry(i);
  }

  /** Decoding printable codes and encoding the symbols gives the codes back. */
  lemma DecodeThenEncode(cs: seq<char>)
    requires forall c <- cs :: IsPrintable(c)
    ensures Decoded(cs).Ok?
    ensures forall c <- Decoded(cs).value :: c in Alphabet
    ensures Encoded(Decoded(cs).value) == Ok(cs)
  {
    forall c <- cs
      ensures DecodeChar(c).Ok?
    {
      DecodeThenEncodeChar(c);
    }
    var s := Decoded(cs).value;
    forall k | 0 <= k < |cs|
      ensures s[k] in Alphabet && EncodeChar(s[k]) == Ok(cs[k])
    {
      assert cs[k] in cs;
      DecodeThenEncodeChar(cs[k]);
    }
    assert forall c <- s :: EncodeChar(c).Ok?;
    assert Encoded(s).value == cs;
  }
}
