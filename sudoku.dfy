/** The Sudoku helper: a backtracking solver that fills a 9 x 9 grid in place,
    and the extraction of the initial clues from an expression tree whose
    equations `v<rc> = <digit>` give the value of the cell in row r, column c. */
module Sudoku {
  import opened Outcome
  import opened Ast

  /** A cell holds a `u8`; 0 marks an empty cell. */
  type Cell = x: int | 0 <= x < 256

  /** `usize` keys are taken modulo 2^64, as `as usize` does on an `i64`. */
  const Word: nat := 0x1_0000_0000_0000_0000

  predicate IsGrid(g: array2<Cell>)
  {
    g.Length0 == 9 && g.Length1 == 9
  }

  /** A board as a value: nine rows of nine cells. */
  predicate Board(s: seq<seq<Cell>>)
  {
    |s| == 9 && forall i :: 0 <= i < 9 ==> |s[i]| == 9
  }

  /** The contents of a grid, row by row. */
  ghost function Cells(g: array2<Cell>): (s: seq<seq<Cell>>)
    requires IsGrid(g)
    reads g
    ensures Board(s)
    ensures forall i, j :: 0 <= i < 9 && 0 <= j < 9 ==> s[i][j] == g[i, j]
  {
    seq(9, i requires 0 <= i < 9 reads g => seq(9, j requires 0 <= j < 9 reads g => g[i, j]))
  }

  lemma BoardEq(a: seq<seq<Cell>>, b: seq<seq<Cell>>)
    requires Board(a) && Board(b)
    requires forall i, j :: 0 <= i < 9 && 0 <= j < 9 ==> a[i][j] == b[i][j]
    ensures a == b
  {
    forall i | 0 <= i < 9
      ensures a[i] == b[i]
    {
      assert forall j :: 0 <= j < 9 ==> a[i][j] == b[i][j];
    }
  }

  /** The board with one cell overwritten. */
  function Place(s: seq<seq<Cell>>, r: nat, c: nat, v: Cell): seq<seq<Cell>>
    requires r < |s| && c < |s[r]|
  {
    var row: seq<Cell> := s[r][c := v];
    s[r := row]
  }

  // ---------------------------------------------------------------- is_ok

  predicate InRow(s: seq<seq<Cell>>, r: nat, num: Cell)
    requires Board(s) && r < 9
  {
    exists x :: 0 <= x < 9 && s[r][x] == num
  }

  predicate InColumn(s: seq<seq<Cell>>, c: nat, num: Cell)
    requires Board(s) && c < 9
  {
    exists x :: 0 <= x < 9 && s[x][c] == num
  }

  /** `num` occurs in the 3 x 3 box holding (r, c). */
  predicate InBox(s: seq<seq<Cell>>, r: nat, c: nat, num: Cell)
    requires Board(s) && r < 9 && c < 9
  {
    exists i, j :: r / 3 * 3 <= i < r / 3 * 3 + 3 && c / 3 * 3 <= j < c / 3 * 3 + 3 && s[i][j] == num
  }

  predicate Allowed(s: seq<seq<Cell>>, r: nat, c: nat, num: Cell)
    requires Board(s) && r < 9 && c < 9
  {
    !InRow(s, r, num) && !InColumn(s, c, num) && !InBox(s, r, c, num)
  }

  /** is_ok: true iff `num` is nowhere in the row, the column or the box of
      (row, col). */
  method IsOk(g: array2<Cell>, row: nat, col: nat, num: Cell) returns (ok: bool)
    requires IsGrid(g) && row < 9 && col < 9
    ensures ok <==> Allowed(Cells(g), row, col, num)
  {
    for x := 0 to 9
      invariant forall y :: 0 <= y < x ==> g[row, y] != num && g[y, col] != num
    {
      if g[row, x] == num || g[x, col] == num {
        return false;
      }
    }
    var startRow, startCol := row / 3 * 3, col / 3 * 3;
    for i := 0 to 3
      invariant forall a, b :: startRow <= a < startRow + i && startCol <= b < startCol + 3 ==> g[a, b] != num
    {
      var r := startRow + i;
      for j := 0 to 3
        invariant forall a, b :: startRow <= a < startRow + i && startCol <= b < startCol + 3 ==> g[a, b] != num
        invariant forall b :: startCol <= b < startCol + j ==> g[r, b] != num
      {
        if g[r, startCol + j] == num {
          return false;
        }
      }
    }
    return true;
  }

  // ------------------------------------------------------- solve_from_state

  predicate SameUnit(i1: int, j1: int, i2: int, j2: int)
  {
    i1 == i2 || j1 == j2 || (i1 / 3 == i2 / 3 && j1 / 3 == j2 / 3)
  }

  /** No nonzero value occurs twice in a row, a column or a box. */
  predicate Consistent(s: seq<seq<Cell>>)
    requires Board(s)
  {
    forall i1, j1, i2, j2 ::
      0 <= i1 < 9 && 0 <= j1 < 9 && 0 <= i2 < 9 && 0 <= j2 < 9 &&
      (i1 != i2 || j1 != j2) && SameUnit(i1, j1, i2, j2) && s[i1][j1] != 0
      ==> s[i1][j1] != s[i2][j2]
  }

  predicate Filled(s: seq<seq<Cell>>)
    requires Board(s)
  {
    forall i, j :: 0 <= i < 9 && 0 <= j < 9 ==> s[i][j] != 0
  }

  /** `b` keeps every given of `a` and puts at most a digit in its empty cells. */
  predicate Extends(a: seq<seq<Cell>>, b: seq<seq<Cell>>)
    requires Board(a) && Board(b)
  {
    forall i, j :: 0 <= i < 9 && 0 <= j < 9 ==>
      if a[i][j] != 0 then b[i][j] == a[i][j] else b[i][j] <= 9
  }

  /** The number of empty cells: the measure the solver's recursion decreases. */
  function RowZeros(row: seq<Cell>): nat
  {
    if row == [] then 0 else (if row[0] == 0 then 1 else 0) + RowZeros(row[1..])
  }

  function ZeroCount(s: seq<seq<Cell>>): nat
  {
    if s == [] then 0 else RowZeros(s[0]) + ZeroCount(s[1..])
  }

  lemma {:induction false} RowZerosUpdate(row: seq<Cell>, c: nat, v: Cell)
    requires c < |row| && row[c] == 0 && v != 0
    ensures RowZeros(row[c := v]) == RowZeros(row) - 1
    decreases c
  {
    if c == 0 {
      assert row[c := v][1..] == row[1..];
    } else {
      assert row[c := v][1..] == row[1..][c - 1 := v];
      RowZerosUpdate(row[1..], c - 1, v);
    }
  }

  /** Filling an empty cell with a nonzero value removes exactly one empty cell. */
  lemma {:induction false} PlacementFillsOne(s: seq<seq<Cell>>, r: nat, c: nat, v: Cell)
    requires r < |s| && c < |s[r]| && s[r][c] == 0 && v != 0
    ensures ZeroCount(Place(s, r, c, v)) == ZeroCount(s) - 1
    decreases r
  {
    if r == 0 {
      RowZerosUpdate(s[0], c, v);
      assert Place(s, r, c, v)[1..] == s[1..];
    } else {
      assert Place(s, r, c, v)[1..] == Place(s[1..], r - 1, c, v);
      PlacementFillsOne(s[1..], r - 1, c, v);
    }
  }

  lemma {:induction false} NoZerosFilled(s: seq<seq<Cell>>)
    requires Board(s)
    ensures ZeroCount(s) == 0 <==> Filled(s)
  {
    var k := 0;
    while k < 9
      invariant 0 <= k <= 9
      invariant ZeroCount(s) == ZeroCount(s[..k]) + ZeroCount(s[k..])
      invariant ZeroCount(s[..k]) == 0 <==> forall i, j :: 0 <= i < k && 0 <= j < 9 ==> s[i][j] != 0
    {
      ZeroCountSplit(s[..k + 1], k);
      assert s[..k + 1][..k] == s[..k];
      RowZerosNone(s[k]);
      assert s[..k + 1][k..] == [s[k]];
      assert ZeroCount([s[k]]) == RowZeros(s[k]);
      ZeroCountSplit(s, k + 1);
      ZeroCountSplit(s[k..], 1);
      assert s[k..][1..] == s[k + 1..];
      k := k + 1;
    }
    assert s[..9] == s;
  }

  lemma {:induction false} ZeroCountSplit(s: seq<seq<Cell>>, k: nat)
    requires k <= |s|
    ensures ZeroCount(s) == ZeroCount(s[..k]) + ZeroCount(s[k..])
    decreases k
  {
    if k > 0 {
      assert s[..k][1..] == s[1..][..k - 1];
      assert s[k..] == s[1..][k - 1..];
      ZeroCountSplit(s[1..], k - 1);
    } else {
      assert s[k..] == s;
    }
  }

  lemma {:induction false} RowZerosNone(row: seq<Cell>)
    ensures RowZeros(row) == 0 <==> forall j :: 0 <= j < |row| ==> row[j] != 0
    decreases |row|
  {
    if row != [] {
      RowZerosNone(row[1..]);
      assert forall j :: 1 <= j < |row| ==> row[j] == row[1..][j - 1];
    }
  }

  /** A cell in the same unit as (r, c) cannot hold a value `Allowed` at (r, c). */
  lemma UnitExcludes(s: seq<seq<Cell>>, r: nat, c: nat, num: Cell, i: nat, j: nat)
    requires Board(s) && r < 9 && c < 9 && i < 9 && j < 9
    requires SameUnit(r, c, i, j) && Allowed(s, r, c, num)
    ensures s[i][j] != num
  {
    if i != r && j != c {
      assert r / 3 * 3 <= i < r / 3 * 3 + 3 && c / 3 * 3 <= j < c / 3 * 3 + 3;
    }
  }

  /** An `is_ok` placement into an empty cell keeps a consistent board consistent. */
  lemma PlacementKeepsConsistent(s: seq<seq<Cell>>, r: nat, c: nat, num: Cell)
    requires Board(s) && r < 9 && c < 9 && s[r][c] == 0 && num != 0
    requires Consistent(s) && Allowed(s, r, c, num)
    ensures Board(Place(s, r, c, num)) && Consistent(Place(s, r, c, num))
  {
    var t := Place(s, r, c, num);
    forall i1, j1, i2, j2 |
      0 <= i1 < 9 && 0 <= j1 < 9 && 0 <= i2 < 9 && 0 <= j2 < 9 &&
      (i1 != i2 || j1 != j2) && SameUnit(i1, j1, i2, j2) && t[i1][j1] != 0
      ensures t[i1][j1] != t[i2][j2]
    {
      if i1 == r && j1 == c {
        UnitExcludes(s, r, c, num, i2, j2);
      } else if i2 == r && j2 == c {
        assert SameUnit(r, c, i1, j1);
        UnitExcludes(s, r, c, num, i1, j1);
      }
    }
  }

  /** solve_from_state: finds the first empty cell in row-major order, tries
      1..9 there with `is_ok`, and recurses; a failed attempt is reset to 0.
      On success the grid is full, on failure it is as it was, givens are never
      changed, and a consistent grid stays consistent (so a success is a
      solved Sudoku). */
  method SolveFromState(g: array2<Cell>) returns (solved: bool)
    requires IsGrid(g)
    modifies g
    ensures Extends(old(Cells(g)), Cells(g))
    ensures solved ==> Filled(Cells(g))
    ensures !solved ==> Cells(g) == old(Cells(g))
    ensures old(Consistent(Cells(g))) ==> Consistent(Cells(g))
    decreases ZeroCount(Cells(g))
  {
    for row := 0 to 9
      invariant Cells(g) == old(Cells(g))
      invariant forall i, j :: 0 <= i < row && 0 <= j < 9 ==> g[i, j] != 0
    {
      for col := 0 to 9
        invariant Cells(g) == old(Cells(g))
        invariant forall i, j :: 0 <= i < row && 0 <= j < 9 ==> g[i, j] != 0
        invariant forall j :: 0 <= j < col ==> g[row, j] != 0
      {
        if g[row, col] == 0 {
          ghost var s0 := Cells(g);
          for num := 1 to 10
            invariant Cells(g) == s0
          {
            var ok := IsOk(g, row, col, num);
            if ok {
              g[row, col] := num;
              ghost var s1 := Place(s0, row, col, num);
              BoardEq(Cells(g), s1);
              PlacementFillsOne(s0, row, col, num);
              if Consistent(s0) {
                PlacementKeepsConsistent(s0, row, col, num);
              }
              solved := SolveFromState(g);
              if solved {
                ExtendsThroughPlace(s0, row, col, num, Cells(g));
                return true;
              }
              g[row, col] := 0;
              BoardEq(Cells(g), s0);
            }
          }
          return false;
        }
      }
    }
    ExtendsSelf(Cells(g));
    return true;
  }

  lemma ExtendsSelf(s: seq<seq<Cell>>)
    requires Board(s)
    ensures Extends(s, s)
  {
  }

  /** A placement of a digit followed by an extension is an extension. */
  lemma ExtendsThroughPlace(s: seq<seq<Cell>>, r: nat, c: nat, num: Cell, t: seq<seq<Cell>>)
    requires Board(s) && Board(t) && r < 9 && c < 9 && s[r][c] == 0 && 1 <= num <= 9
    requires Extends(Place(s, r, c, num), t)
    ensures Extends(s, t)
  {
  }

  // ------------------------------------------------ visit_sudoku, extraction

  /** The `(key, value)` inserts visit_sudoku makes, in visiting order: one for
      each `=` node whose left child is a variable and right child an integer.
      An `=` node is not descended into; a Boolean leaf is an error. */
  function Clues(e: Expr): (r: Result<seq<(nat, Cell)>>)
    ensures r.Err? ==> r.error == Unsupported
  {
    match e
    case Unary(_, a) => Clues(a)
    case Binary(op, a, b) =>
      if op == '=' then
        if a.Var? && b.Integer? then Ok([(a.id % Word, b.n % 256)]) else Ok([])
      else
        var l :- Clues(a);
        var r :- Clues(b);
        Ok(l + r)
    case Lambda(_, a) => Clues(a)
    case If(a, b, c) =>
      var l :- Clues(a);
      var m :- Clues(b);
      var r :- Clues(c);
      Ok(l + m + r)
    case Var(_) => Ok([])
    case String(_) => Ok([])
    case Integer(_) => Ok([])
    case Boolean(_) => Err(Unsupported)
  }

  /** A map after a run of inserts, a later insert overwriting an earlier one. */
  function Record(m: map<nat, Cell>, cs: seq<(nat, Cell)>): map<nat, Cell>
    decreases |cs|
  {
    if cs == [] then m else Record(m[cs[0].0 := cs[0].1], cs[1..])
  }

  lemma {:induction false} RecordAppend(m: map<nat, Cell>, xs: seq<(nat, Cell)>, ys: seq<(nat, Cell)>)
    ensures Record(m, xs + ys) == Record(Record(m, xs), ys)
    decreases |xs|
  {
    if xs != [] {
      assert (xs + ys)[1..] == xs[1..] + ys;
      RecordAppend(m[xs[0].0 := xs[0].1], xs[1..], ys);
    } else {
      assert xs + ys == ys;
    }
  }

  /** What the inserts leave behind: a key is present iff it was present or
      inserted; an inserted key holds the value of its last insert, and any
      other key keeps its old value. */
  lemma {:induction false} RecordContents(m: map<nat, Cell>, cs: seq<(nat, Cell)>)
    ensures forall k :: k in Record(m, cs) <==> k in m || exists i :: 0 <= i < |cs| && cs[i].0 == k
    ensures forall i :: 0 <= i < |cs| && (forall j :: i < j < |cs| ==> cs[j].0 != cs[i].0) ==>
      Record(m, cs)[cs[i].0] == cs[i].1
    ensures forall k :: k in m && (forall i :: 0 <= i < |cs| ==> cs[i].0 != k) ==> Record(m, cs)[k] == m[k]
    decreases |cs|
  {
    if cs != [] {
      var m' := m[cs[0].0 := cs[0].1];
      RecordContents(m', cs[1..]);
      assert forall i :: 1 <= i < |cs| ==> cs[i] == cs[1..][i - 1];
    }
  }

  /** visit_sudoku: the recursive walk, inserting into `res` as it goes. */
  method VisitSudoku(e: Expr, res: map<nat, Cell>) returns (r: Result<map<nat, Cell>>)
    ensures r.Ok? <==> Clues(e).Ok?
    ensures r.Ok? ==> r.value == Record(res, Clues(e).value)
    ensures r.Err? ==> r.error == Unsupported
  {
    match e {
      case Unary(_, a) =>
        r := VisitSudoku(a, res);
      case Binary(op, a, b) =>
        if op == '=' {
          if a.Var? && b.Integer? {
            r := Ok(res[a.id % Word := b.n % 256]);
          } else {
            r := Ok(res);
          }
        } else {
          var m :- VisitSudoku(a, res);
          r := VisitSudoku(b, m);
          if r.Ok? {
            RecordAppend(res, Clues(a).value, Clues(b).value);
          }
        }
      case Lambda(_, a) =>
        r := VisitSudoku(a, res);
      case If(a, b, c) =>
        var m1 :- VisitSudoku(a, res);
        var m2 :- VisitSudoku(b, m1);
        r := VisitSudoku(c, m2);
        if r.Ok? {
          RecordAppend(res, Clues(a).value, Clues(b).value);
          RecordAppend(res, Clues(a).value + Clues(b).value, Clues(c).value);
        }
      case Var(_) =>
        r := Ok(res);
      case String(_) =>
        r := Ok(res);
      case Integer(_) =>
        r := Ok(res);
      case Boolean(_) =>
        r := Err(Unsupported);
    }
  }

  /** The key naming row i, column j (both from 0): its tens digit is the row
      and its units digit the column, both counted from 1. */
  function Key(i: nat, j: nat): nat
  {
    (i + 1) * 10 + (j + 1)
  }

  /** A key extract_initial_state can place: `k / 10 - 1` and `k % 10 - 1`
      neither underflow nor leave the grid. */
  predicate ValidKey(k: nat)
  {
    10 <= k < 100 && k % 10 != 0
  }

  lemma CellOfKey(k: nat)
    requires ValidKey(k)
    ensures 0 <= k / 10 - 1 < 9 && 0 <= k % 10 - 1 < 9
    ensures Key(k / 10 - 1, k % 10 - 1) == k
  {
  }

  lemma KeyOfCell(i: nat, j: nat)
    requires i < 9 && j < 9
    ensures ValidKey(Key(i, j))
    ensures Key(i, j) / 10 - 1 == i && Key(i, j) % 10 - 1 == j
  {
    var k := Key(i, j);
    assert k == (i + 1) * 10 + (j + 1);
    assert k / 10 == i + 1 && k % 10 == j + 1;
  }

  /** The grid a clue map lays out: a clue's value in its cell, 0 elsewhere. */
  function Layout(m: map<nat, Cell>): (s: seq<seq<Cell>>)
    ensures Board(s)
  {
    seq(9, i requires 0 <= i < 9 => seq(9, j requires 0 <= j < 9 => if Key(i, j) in m then m[Key(i, j)] else 0))
  }

  /** Every placeable clue lands in its cell, and every other cell is empty. */
  lemma LayoutPlacesClues(m: map<nat, Cell>)
    ensures forall k :: k in m && ValidKey(k) ==> Layout(m)[k / 10 - 1][k % 10 - 1] == m[k]
    ensures forall i, j :: 0 <= i < 9 && 0 <= j < 9 && Layout(m)[i][j] != 0 ==> Key(i, j) in m
  {
    forall k | k in m && ValidKey(k)
      ensures Layout(m)[k / 10 - 1][k % 10 - 1] == m[k]
    {
      CellOfKey(k);
    }
  }

  /** extract_initial_state: collects the clues, then writes each into a fresh
      empty grid, visiting the keys in an arbitrary order. A key that names no
      cell is an error. */
  method ExtractInitialState(e: Expr) returns (r: Result<array2<Cell>>)
    ensures Clues(e).Err? ==> r.Err? && r.error == Unsupported
    ensures Clues(e).Ok? ==>
      var m := Record(map[], Clues(e).value);
      && (r.Ok? <==> forall k :: k in m ==> ValidKey(k))
      && (r.Err? ==> r.error.InvalidCell? && r.error.key in m && !ValidKey(r.error.key))
    ensures r.Ok? ==>
      && Clues(e).Ok? && fresh(r.value) && IsGrid(r.value)
      && Cells(r.value) == Layout(Record(map[], Clues(e).value))
  {
    var m :- VisitSudoku(e, map[]);
    var g := new Cell[9, 9]((i, j) => 0);
    var remaining := m.Keys;
    while remaining != {}
      invariant remaining <= m.Keys
      invariant forall i, j :: 0 <= i < 9 && 0 <= j < 9 ==>
        g[i, j] == if Key(i, j) in m && Key(i, j) !in remaining then m[Key(i, j)] else 0
      invariant forall k :: k in m && k !in remaining ==> ValidKey(k)
      decreases remaining
    {
      var k :| k in remaining;
      if !ValidKey(k) {
        return Err(InvalidCell(k));
      }
      var row, col := k / 10 - 1, k % 10 - 1;
      CellOfKey(k);
      forall i, j | 0 <= i < 9 && 0 <= j < 9 && Key(i, j) == k
        ensures i == row && j == col
      {
        KeyOfCell(i, j);
      }
      g[row, col] := m[k];
      remaining := remaining - {k};
    }
    BoardEq(Cells(g), Layout(m));
    r := Ok(g);
  }

  /** Two clues for the same key: the later one wins, and lands in row 0,
      column 1. */
  lemma ClueOverwrite()
    ensures
      var e := Binary('&', Binary('=', Var(12), Integer(5)), Binary('=', Var(12), Integer(263)));
      && Clues(e) == Ok([(12, 5), (12, 7)])
      && Record(map[], [(12, 5), (12, 7)]) == map[12 := 7]
      && Layout(map[12 := 7])[0][1] == 7
      && Layout(map[12 := 7])[0][0] == 0
  {
    assert Clues(Binary('=', Var(12), Integer(5))) == Ok([(12, 5)]);
    assert Clues(Binary('=', Var(12), Integer(263))) == Ok([(12, 7)]);
    assert [(12, 5)] + [(12, 7)] == [(12, 5), (12, 7)];
    var m: map<nat, Cell> := map[];
    assert Record(m, [(12, 5), (12, 7)]) == Record(m[12 := 5], [(12, 7)]);
    assert Record(m[12 := 5], [(12, 7)]) == Record(m[12 := 5][12 := 7], []);
    assert m[12 := 5][12 := 7] == map[12 := 7];
    assert Key(0, 1) == 12 && Key(0, 0) == 11;
  }

  /** An `=` node is not looked into, so a Boolean under it is no error; a
      Boolean anywhere else is. A negative identifier wraps to a key that
      names no cell. */
  lemma ClueCornerCases()
    ensures Clues(Binary('=', Boolean(true), Var(1))) == Ok([])
    ensures Clues(Unary('!', Boolean(false))) == Err(Unsupported)
    ensures Clues(Binary('=', Var(-1), Integer(3))) == Ok([(0xFFFF_FFFF_FFFF_FFFF, 3)])
    ensures !ValidKey(0xFFFF_FFFF_FFFF_FFFF)
  {
  }
}
