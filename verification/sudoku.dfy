/**
 * Sudoku as a problem for the backtracking engine: 81 cells in row-major
 * order, `0` for an empty cell and `1..=9` for a digit. Decisions write a
 * digit into the first empty cell.
 */
module SudokuGame {
  import opened Options
  import opened Seqs
  import BT = Backtracking

  /** An unsigned byte, the element type of the Rust grid. */
  type Byte = x: int | 0 <= x < 256

  /** A cell index of the 9x9 grid. */
  type Cell = i: int | 0 <= i < 81

  /** The 81 cells, top to bottom, left to right. */
  type Fields = s: seq<Byte> | |s| == 81 witness seq(81, _ => 0)

  datatype Sudoku = Sudoku(fields: Fields)

  /** The decision: write `digit` into the cell at `index`. */
  datatype WriteDigit = WriteDigit(index: Cell, digit: Byte)

  /** Every cell holds `0` or a digit `1..=9`. */
  predicate ValidDigits(f: Fields) {
    forall i | 0 <= i < 81 :: f[i] <= 9
  }

  /** `Sudoku::from_bytes`: a grid with a byte above nine is refused (the Rust code panics); any other grid is kept as given. */
  function FromBytes(bytes: Fields): (r: Option<Sudoku>)
    ensures r.Some? <==> ValidDigits(bytes)
    ensures r.Some? ==> r.value.fields == bytes
  {
    if exists i | 0 <= i < 81 :: bytes[i] > 9 then None else Some(Sudoku(bytes))
  }

  /** The grid with every cell empty. */
  function EmptyFields(): Fields {
    seq(81, _ => 0)
  }

  /** `Sudoku::new`: the empty grid, which `from_bytes` accepts. */
  function New(): (s: Sudoku)
    ensures FromBytes(EmptyFields()) == Some(s)
    ensures forall i | 0 <= i < 81 :: s.fields[i] == 0
  {
    Sudoku(EmptyFields())
  }

  /* ---------------------------------------------------------------------- */
  /* Rows, columns and 3x3 blocks                                            */
  /* ---------------------------------------------------------------------- */

  function RowOf(i: Cell): int {
    i / 9
  }

  function ColOf(i: Cell): int {
    i % 9
  }

  /** The offset `possible_digits_at` computes for the block of cell `i`. */
  function GroupOffset(i: Cell): (off: int)
    ensures off == 27 * (RowOf(i) / 3) + 3 * (ColOf(i) / 3)
  {
    var row := i / 9;
    var col := i % 9;
    var group := col / 3 + (row / 3) * 3;
    assert group / 3 == row / 3;
    group * 3 + (group / 3) * 18
  }

  /** The `k`-th cell of the block starting at `off`, as `possible_digits_at` enumerates it. */
  function GroupCell(off: int, k: int): int {
    off + k % 3 + (k / 3) * 9
  }

  /** Reference definition: two cells lie in the same 3x3 block. */
  predicate SameBlock(i: Cell, j: Cell) {
    RowOf(i) / 3 == RowOf(j) / 3 && ColOf(i) / 3 == ColOf(j) / 3
  }

  /** Row and column of the cell `9 * row + col`. */
  lemma RowColOf(row: int, col: int)
    requires 0 <= row < 9 && 0 <= col < 9
    ensures (9 * row + col) / 9 == row && (9 * row + col) % 9 == col
  {
  }

  /** The `k`-th cell enumerated for `i`'s block lies `k / 3` rows and `k % 3` columns from the block's corner. */
  lemma GroupCellRowCol(i: Cell, k: int)
    requires 0 <= k < 9
    ensures var c := GroupCell(GroupOffset(i), k);
      && 0 <= c < 81
      && c / 9 == 3 * (RowOf(i) / 3) + k / 3
      && c % 9 == 3 * (ColOf(i) / 3) + k % 3
  {
    var br, bc := RowOf(i) / 3, ColOf(i) / 3;
    var a, b := k / 3, k % 3;
    assert GroupCell(GroupOffset(i), k) == 9 * (3 * br + a) + (3 * bc + b);
    RowColOf(3 * br + a, 3 * bc + b);
  }

  /** A cell of `i`'s block is enumerated at position `3 * (row % 3) + col % 3`. */
  lemma GroupCellIndex(i: Cell, j: Cell)
    requires SameBlock(i, j)
    ensures GroupCell(GroupOffset(i), 3 * (RowOf(j) % 3) + ColOf(j) % 3) == j
  {
    var k := 3 * (RowOf(j) % 3) + ColOf(j) % 3;
    assert k / 3 == RowOf(j) % 3 && k % 3 == ColOf(j) % 3;
    assert j == 9 * RowOf(j) + ColOf(j);
  }

  /**
   * The offset is the block's top-left cell, and the nine cells enumerated
   * from it lie on the grid and are exactly the cells of `i`'s block.
   */
  lemma GroupCellsAreBlock(i: Cell)
    ensures forall k | 0 <= k < 9 :: 0 <= GroupCell(GroupOffset(i), k) < 81
    ensures forall k | 0 <= k < 9 :: SameBlock(i, GroupCell(GroupOffset(i), k))
    ensures forall j: Cell | SameBlock(i, j) :: exists k | 0 <= k < 9 :: GroupCell(GroupOffset(i), k) == j
  {
    var off := GroupOffset(i);
    forall k | 0 <= k < 9
      ensures 0 <= GroupCell(off, k) < 81 && SameBlock(i, GroupCell(off, k))
    {
      GroupCellRowCol(i, k);
    }
    forall j: Cell | SameBlock(i, j)
      ensures exists k | 0 <= k < 9 :: GroupCell(off, k) == j
    {
      GroupCellIndex(i, j);
    }
  }

  /* ---------------------------------------------------------------------- */
  /* possible_digits_at                                                      */
  /* ---------------------------------------------------------------------- */

  /** The cell in `row` and `col`, as `possible_digits_at` indexes it. */
  function CellAt(row: int, col: int): (i: Cell)
    requires 0 <= row < 9 && 0 <= col < 9
    ensures RowOf(i) == row && ColOf(i) == col
  {
    col + row * 9
  }

  /** The `k`-th cell of the block of `i`. */
  function BlockCell(i: Cell, k: int): (c: Cell)
    requires 0 <= k < 9
    ensures c == GroupCell(GroupOffset(i), k)
  {
    GroupCellsAreBlock(i);
    GroupCell(GroupOffset(i), k)
  }

  predicate InRow(f: Fields, row: int, digit: int)
    requires 0 <= row < 9
  {
    exists c | 0 <= c < 9 :: f[CellAt(row, c)] == digit
  }

  predicate InCol(f: Fields, col: int, digit: int)
    requires 0 <= col < 9
  {
    exists r | 0 <= r < 9 :: f[CellAt(r, col)] == digit
  }

  predicate InGroup(f: Fields, i: Cell, digit: int) {
    exists k | 0 <= k < 9 :: f[BlockCell(i, k)] == digit
  }

  /** The three filters of `possible_digits_at`. */
  predicate Allowed(f: Fields, i: Cell, digit: int) {
    !InRow(f, RowOf(i), digit) && !InCol(f, ColOf(i), digit) && !InGroup(f, i, digit)
  }

  /** Reference definition: no cell sharing a row, a column or a block with `i` holds `digit`. */
  predicate Free(f: Fields, i: Cell, digit: int) {
    forall j: Cell | RowOf(j) == RowOf(i) || ColOf(j) == ColOf(i) || SameBlock(i, j) :: f[j] != digit
  }

  /** The filters of `possible_digits_at` test exactly the row, the column and the block of the cell. */
  lemma AllowedIffFree(f: Fields, i: Cell, digit: int)
    ensures Allowed(f, i, digit) <==> Free(f, i, digit)
  {
    GroupCellsAreBlock(i);
    if Free(f, i, digit) {
      forall c | 0 <= c < 9
        ensures f[CellAt(RowOf(i), c)] != digit
      {
      }
      forall r | 0 <= r < 9
        ensures f[CellAt(r, ColOf(i))] != digit
      {
      }
      forall k | 0 <= k < 9
        ensures f[BlockCell(i, k)] != digit
      {
      }
    }
    if Allowed(f, i, digit) {
      forall j: Cell | RowOf(j) == RowOf(i) || ColOf(j) == ColOf(i) || SameBlock(i, j)
        ensures f[j] != digit
      {
        if RowOf(j) == RowOf(i) {
          assert j == CellAt(RowOf(i), ColOf(j));
        } else if ColOf(j) == ColOf(i) {
          assert j == CellAt(RowOf(j), ColOf(i));
        } else {
          var k :| 0 <= k < 9 && GroupCell(GroupOffset(i), k) == j;
          assert j == BlockCell(i, k);
        }
      }
    }
  }

  /** The digits `d..=9` that satisfy `ok`, ascending: the `(1..=9).filter(..)` chain. */
  function DigitsFrom(ok: int -> bool, d: int): (r: seq<Byte>)
    requires 1 <= d <= 10
    ensures forall k | 0 <= k < |r| :: d <= r[k] <= 9 && ok(r[k])
    ensures forall e | d <= e <= 9 && ok(e) :: e in r
    ensures Ascending(r)
    decreases 10 - d
  {
    if d == 10 then []
    else if ok(d) then [d] + DigitsFrom(ok, d + 1)
    else DigitsFrom(ok, d + 1)
  }

  /**
   * `possible_digits_at`: in ascending order, exactly the digits `1..=9`
   * that occur in neither the row, the column nor the block of the cell.
   */
  function PossibleDigitsAt(s: Sudoku, i: Cell): (r: seq<Byte>)
    ensures forall k | 0 <= k < |r| :: 1 <= r[k] <= 9 && Free(s.fields, i, r[k])
    ensures forall e | 1 <= e <= 9 && Free(s.fields, i, e) :: e in r
    ensures forall k, l | 0 <= k < l < |r| :: r[k] < r[l]
  {
    AllowedIffFreeAll(s.fields, i);
    DigitsFrom(e => Allowed(s.fields, i, e), 1)
  }

  lemma AllowedIffFreeAll(f: Fields, i: Cell)
    ensures forall e :: Allowed(f, i, e) <==> Free(f, i, e)
  {
    forall e
      ensures Allowed(f, i, e) <==> Free(f, i, e)
    {
      AllowedIffFree(f, i, e);
    }
  }

  /* ---------------------------------------------------------------------- */
  /* The problem operations                                                  */
  /* ---------------------------------------------------------------------- */

  /** The index of the first empty cell, if any. */
  function FirstEmpty(f: Fields, from: nat): (r: Option<Cell>)
    requires from <= 81
    ensures r.Some? ==> from <= r.value && f[r.value] == 0 && forall j | from <= j < r.value :: f[j] != 0
    ensures r.None? ==> forall j | from <= j < 81 :: f[j] != 0
    decreases 81 - from
  {
    if from == 81 then None
    else if f[from] == 0 then Some(from)
    else FirstEmpty(f, from + 1)
  }

  /** One decision per digit, all for the same cell, in the digits' order. */
  function Writes(i: Cell, digits: seq<Byte>): (r: seq<WriteDigit>)
    ensures |r| == |digits|
    ensures forall k | 0 <= k < |digits| :: r[k] == WriteDigit(i, digits[k])
  {
    seq(|digits|, k requires 0 <= k < |digits| => WriteDigit(i, digits[k]))
  }

  /**
   * `next_decisions`: for the first empty cell, one decision per possible
   * digit appended to the buffer. With no empty cell the buffer is left
   * alone; with an empty cell that takes no digit the buffer is cleared.
   */
  function NextDecisions(s: Sudoku, buffer: seq<WriteDigit>): (r: seq<WriteDigit>)
    ensures (forall i | 0 <= i < 81 :: s.fields[i] != 0) ==> r == buffer
    ensures FirstEmpty(s.fields, 0).Some? && |PossibleDigitsAt(s, FirstEmpty(s.fields, 0).value)| == 0 ==> r == []
    ensures FirstEmpty(s.fields, 0).Some? && |PossibleDigitsAt(s, FirstEmpty(s.fields, 0).value)| > 0 ==>
      |buffer| < |r| && r[..|buffer|] == buffer
  {
    var first := FirstEmpty(s.fields, 0);
    if first.None? then buffer
    else
      var digits := PossibleDigitsAt(s, first.value);
      if |digits| == 0 then []
      else
        var r := buffer + Writes(first.value, digits);
        assert r[..|buffer|] == buffer;
        r
  }

  /** When there is something to offer, the offers are appended to whatever the buffer held, the same for every buffer. */
  lemma NextDecisionsAppends(s: Sudoku, buffer: seq<WriteDigit>)
    ensures NextDecisions(s, []) != [] ==> NextDecisions(s, buffer) == buffer + NextDecisions(s, [])
  {
  }

  /** Cell `i` is empty and every cell before it holds a digit. */
  predicate IsFirstEmpty(f: Fields, i: Cell) {
    f[i] == 0 && forall j | 0 <= j < i :: f[j] != 0
  }

  /** With an empty buffer, the decisions are the writes of the free digits into the first empty cell. */
  lemma DecisionsAreWrites(s: Sudoku)
    ensures var first := FirstEmpty(s.fields, 0);
      NextDecisions(s, []) == if first.Some? then Writes(first.value, PossibleDigitsAt(s, first.value)) else []
  {
    var first := FirstEmpty(s.fields, 0);
    if first.Some? {
      var w := Writes(first.value, PossibleDigitsAt(s, first.value));
      assert [] + w == w;
    }
  }

  /** Every decision offered writes a digit free in the first empty cell. */
  lemma DecisionsSound(s: Sudoku)
    ensures var r := NextDecisions(s, []);
      forall k | 0 <= k < |r| ::
        IsFirstEmpty(s.fields, r[k].index) && 1 <= r[k].digit <= 9 && Free(s.fields, r[k].index, r[k].digit)
  {
    DecisionsAreWrites(s);
    var first := FirstEmpty(s.fields, 0);
    if first.Some? {
      var i := first.value;
      var digits := PossibleDigitsAt(s, i);
      var r := Writes(i, digits);
      assert IsFirstEmpty(s.fields, i);
      forall k | 0 <= k < |r|
        ensures IsFirstEmpty(s.fields, r[k].index) && 1 <= r[k].digit <= 9 && Free(s.fields, r[k].index, r[k].digit)
      {
        assert r[k].index == i && r[k].digit == digits[k];
      }
    }
  }

  /** The decisions offered all target one cell, in ascending digit order. */
  lemma DecisionsOrdered(s: Sudoku)
    ensures var r := NextDecisions(s, []);
      forall k, l | 0 <= k < l < |r| :: r[k].index == r[l].index && r[k].digit < r[l].digit
  {
    DecisionsAreWrites(s);
    var first := FirstEmpty(s.fields, 0);
    if first.Some? {
      var i := first.value;
      var digits := PossibleDigitsAt(s, i);
      var r := Writes(i, digits);
      forall k, l | 0 <= k < l < |r|
        ensures r[k].index == r[l].index && r[k].digit < r[l].digit
      {
        assert r[k] == WriteDigit(i, digits[k]) && r[l] == WriteDigit(i, digits[l]);
      }
    }
  }

  /** The scan from the top-left finds the first empty cell. */
  lemma FirstEmptyFinds(f: Fields, i: Cell)
    requires IsFirstEmpty(f, i)
    ensures FirstEmpty(f, 0) == Some(i)
  {
  }

  /** Every free digit of the first empty cell is offered. */
  lemma DecisionsComplete(s: Sudoku, i: Cell, e: int)
    requires IsFirstEmpty(s.fields, i) && 1 <= e <= 9 && Free(s.fields, i, e)
    ensures WriteDigit(i, e) in NextDecisions(s, [])
  {
    DecisionsAreWrites(s);
    FirstEmptyFinds(s.fields, i);
    var digits := PossibleDigitsAt(s, i);
    var k :| 0 <= k < |digits| && digits[k] == e;
    assert Writes(i, digits)[k] == WriteDigit(i, e);
  }

  /**
   * Asked with an empty buffer, the decisions all target the first empty
   * cell, go up in digit order, and offer exactly the digits free there.
   * So none are offered when the grid is full or its first empty cell is a
   * dead end.
   */
  lemma NextDecisionsFirstEmpty(s: Sudoku)
    ensures var r := NextDecisions(s, []);
      && (forall k | 0 <= k < |r| ::
            IsFirstEmpty(s.fields, r[k].index) && 1 <= r[k].digit <= 9 && Free(s.fields, r[k].index, r[k].digit))
      && (forall k, l | 0 <= k < l < |r| :: r[k].index == r[l].index && r[k].digit < r[l].digit)
      && (forall i: Cell, e | IsFirstEmpty(s.fields, i) && 1 <= e <= 9 && Free(s.fields, i, e) :: WriteDigit(i, e) in r)
  {
    DecisionsSound(s);
    DecisionsOrdered(s);
    forall i: Cell, e | IsFirstEmpty(s.fields, i) && 1 <= e <= 9 && Free(s.fields, i, e)
      ensures WriteDigit(i, e) in NextDecisions(s, [])
    {
      DecisionsComplete(s, i, e);
    }
  }

  /** `decide`: the digit is written into its cell and nothing else changes. */
  function Decide(s: Sudoku, m: WriteDigit): (r: Sudoku)
    ensures r.fields[m.index] == m.digit
    ensures forall j | 0 <= j < 81 && j != m.index :: r.fields[j] == s.fields[j]
  {
    Sudoku(s.fields[m.index := m.digit])
  }

  /** `undo`: the decision's cell is emptied again and nothing else changes. */
  function Undo(s: Sudoku, last: WriteDigit): (r: Sudoku)
    ensures r.fields[last.index] == 0
    ensures forall j | 0 <= j < 81 && j != last.index :: r.fields[j] == s.fields[j]
  {
    Sudoku(s.fields[last.index := 0])
  }

  /** Writing into an empty cell and undoing it restores the grid. */
  lemma DecideUndo(s: Sudoku, m: WriteDigit)
    requires s.fields[m.index] == 0
    ensures Undo(Decide(s, m), m) == s
  {
    assert Undo(Decide(s, m), m).fields == s.fields;
  }

  /** `is_solution`: the grid itself, once no cell is empty. */
  function IsSolution(s: Sudoku): (r: Option<Sudoku>)
    ensures r.Some? <==> forall i | 0 <= i < 81 :: s.fields[i] != 0
    ensures r.Some? ==> r.value == s
  {
    if forall i | 0 <= i < 81 :: s.fields[i] != 0 then Some(s) else None
  }

  /* ---------------------------------------------------------------------- */
  /* print_to                                                                */
  /* ---------------------------------------------------------------------- */

  /** A cell as printed: `X` for empty, otherwise the digit. */
  function Glyph(b: Byte): (c: char)
    requires b <= 9
    ensures c == 'X' <==> b == 0
    ensures b > 0 ==> '1' <= c <= '9' && c as int - '0' as int == b
  {
    if b == 0 then 'X' else ('0' as int + b) as char
  }

  /** The first `n` cells as the print loop writes them: a line break before every row but the first. */
  function RenderCells(f: Fields, n: nat): (r: string)
    requires n <= 81
    requires ValidDigits(f)
    ensures |r| == if n == 0 then 0 else n + (n - 1) / 9
    ensures forall k | 0 <= k < n :: r[k + k / 9] == Glyph(f[k])
    ensures forall m | 1 <= m && 9 * m < n :: r[10 * m - 1] == '\n'
  {
    if n == 0 then ""
    else
      var k := n - 1;
      var prefix := RenderCells(f, k);
      prefix + (if k % 9 == 0 && k != 0 then "\n" else "") + [Glyph(f[k])]
  }

  /**
   * `print_to`: nine lines of nine characters, each ending in a line break;
   * the character in row `r` and column `c` is the glyph of that cell.
   */
  function PrintTo(s: Sudoku): (r: string)
    requires ValidDigits(s.fields)
    ensures |r| == 90
    ensures forall i | 0 <= i < 81 :: r[10 * RowOf(i) + ColOf(i)] == Glyph(s.fields[i])
    ensures forall row | 0 <= row < 9 :: r[10 * row + 9] == '\n'
  {
    var cells := RenderCells(s.fields, 81);
    var r := cells + "\n";
    forall row | 0 <= row < 9
      ensures r[10 * row + 9] == '\n'
    {
      if row < 8 {
        assert r[10 * (row + 1) - 1] == cells[10 * (row + 1) - 1];
      }
    }
    r
  }

  /* ---------------------------------------------------------------------- */
  /* Sudoku as a problem for the engine                                      */
  /* ---------------------------------------------------------------------- */

  /** The `Problem` implementation. */
  function Instance(): BT.Problem<Sudoku, WriteDigit, Sudoku> {
    BT.Problem((s: Sudoku, buffer: seq<WriteDigit>, h: seq<WriteDigit>) => NextDecisions(s, buffer),
               (s: Sudoku, last: WriteDigit, h: seq<WriteDigit>) => Undo(s, last),
               Decide,
               (s: Sudoku, h: seq<WriteDigit>) => IsSolution(s))
  }

  /** Every decision offered writes a digit `1..=9` into an empty cell. */
  lemma OfferedIntoEmptyCell(s: Sudoku, m: WriteDigit)
    requires m in NextDecisions(s, [])
    ensures s.fields[m.index] == 0 && 1 <= m.digit <= 9
  {
    NextDecisionsFirstEmpty(s);
  }

  /** Sudoku meets the engine's contract: `undo` reverts `decide` along every legal history, from any grid. */
  lemma UndoInverts(init: Sudoku)
    ensures BT.UndoInverts(Instance(), init)
  {
    var p := Instance();
    forall h | 0 < |h| && BT.Legal(p, init, h)
      ensures p.undo(BT.Replay(p, init, h), h[|h| - 1], h[..|h| - 1]) == BT.Replay(p, init, h[..|h| - 1])
    {
      var front := h[..|h| - 1];
      var s := BT.Replay(p, init, front);
      assert BT.Children(p, init, front) == NextDecisions(s, []);
      OfferedIntoEmptyCell(s, h[|h| - 1]);
      DecideUndo(s, h[|h| - 1]);
    }
  }

  /** Along every legal history from a grid of valid digits, the grid keeps valid digits, so it can be printed. */
  lemma {:induction false} ReplayValidDigits(init: Sudoku, h: seq<WriteDigit>)
    requires ValidDigits(init.fields)
    requires BT.Legal(Instance(), init, h)
    ensures ValidDigits(BT.Replay(Instance(), init, h).fields)
    decreases |h|
  {
    if |h| > 0 {
      var p := Instance();
      var front := h[..|h| - 1];
      var s := BT.Replay(p, init, front);
      ReplayValidDigits(init, front);
      assert BT.Children(p, init, front) == NextDecisions(s, []);
      OfferedIntoEmptyCell(s, h[|h| - 1]);
      assert BT.Replay(p, init, h) == Decide(s, h[|h| - 1]);
    }
  }

  /* ---------------------------------------------------------------------- */
  /* The examples of the test module                                         */
  /* ---------------------------------------------------------------------- */

  /** Character `col` of printed line `row` is the glyph of cell `(row, col)`, or the line break after the ninth. */
  lemma PrintedAt(s: Sudoku, row: int, col: int)
    requires ValidDigits(s.fields)
    requires 0 <= row < 9 && 0 <= col < 10
    ensures PrintTo(s)[10 * row + col] == if col == 9 then '\n' else Glyph(s.fields[9 * row + col])
  {
    if col < 9 {
      RowColOf(row, col);
      var i := 9 * row + col;
      assert PrintTo(s)[10 * RowOf(i) + ColOf(i)] == Glyph(s.fields[i]);
    }
  }

  /** Position `k` of a ten-column layout is column `k % 10` of line `k / 10`. */
  lemma LineColumn(k: nat)
    ensures k == 10 * (k / 10) + k % 10 && k % 10 < 10
  {
  }

  /** The empty grid prints as nine lines of nine `X`, each ending in a line break. */
  lemma PrintEmpty()
    ensures PrintTo(New()) == seq(90, k => if k % 10 == 9 then '\n' else 'X')
  {
    var r := PrintTo(New());
    var lines := seq(90, k => if k % 10 == 9 then '\n' else 'X');
    forall k | 0 <= k < 90
      ensures r[k] == lines[k]
    {
      LineColumn(k);
      PrintedAt(New(), k / 10, k % 10);
    }
  }

  /**
   * `play_move` applied to each write of `ms` in turn: a cell no write targets
   * keeps its byte, and a cell holds the digit of the last write to it.
   */
  function DecideAll(s: Sudoku, ms: seq<WriteDigit>): (r: Sudoku)
    ensures forall i | 0 <= i < 81 && (forall k | 0 <= k < |ms| :: ms[k].index != i) :: r.fields[i] == s.fields[i]
    ensures forall k | 0 <= k < |ms| && (forall l | k < l < |ms| :: ms[l].index != ms[k].index) ::
      r.fields[ms[k].index] == ms[k].digit
    decreases |ms|
  {
    if |ms| == 0 then s
    else
      var front := ms[..|ms| - 1];
      assert forall k | 0 <= k < |front| :: front[k] == ms[k];
      Decide(DecideAll(s, front), ms[|ms| - 1])
  }

  /** Playing one more write after a sequence of writes. */
  lemma DecideAllSnoc(s: Sudoku, ms: seq<WriteDigit>, m: WriteDigit)
    ensures DecideAll(s, ms + [m]) == Decide(DecideAll(s, ms), m)
  {
    assert (ms + [m])[..|ms|] == ms;
  }

  /** The nine writes of the first-row test: digit `k + 1` into cell `k`. */
  function FirstRowWrites(): seq<WriteDigit> {
    seq(9, k requires 0 <= k < 9 => WriteDigit(k, k + 1))
  }

  /** The grid of the first-row test: the digits 1 to 9 in the first row, every other cell empty. */
  function FirstRowFields(): (f: Fields)
    ensures ValidDigits(f)
  {
    seq(81, i => if i < 9 then i + 1 else 0)
  }

  /** Playing the nine writes of the first-row test on the empty grid gives that grid. */
  lemma FirstRowByWrites()
    ensures DecideAll(New(), FirstRowWrites()) == Sudoku(FirstRowFields())
  {
    var f := FirstRowFields();
    var g := DecideAll(New(), FirstRowWrites());
    forall i | 0 <= i < 81
      ensures g.fields[i] == f[i]
    {
      if i < 9 {
        assert FirstRowWrites()[i].index == i;
      } else {
        assert forall k | 0 <= k < 9 :: FirstRowWrites()[k].index != i;
      }
    }
    assert g.fields == f;
  }

  /** The expected printout of the first-row test. */
  function FirstRowPrinted(): string {
    seq(90, k => if k % 10 == 9 then '\n' else if 0 <= k < 9 then ('1' as int + k) as char else 'X')
  }

  lemma FirstRowPrintedAt(k: int)
    requires 0 <= k < 90
    ensures PrintTo(Sudoku(FirstRowFields()))[k] == FirstRowPrinted()[k]
  {
    LineColumn(k);
    PrintedAt(Sudoku(FirstRowFields()), k / 10, k % 10);
  }

  /** With the first row filled with 1 to 9, the first line reads `123456789` and the other eight are `X`s. */
  lemma PrintFirstRowFilled()
    ensures PrintTo(Sudoku(FirstRowFields())) == FirstRowPrinted()
  {
    forall k | 0 <= k < 90
      ensures PrintTo(Sudoku(FirstRowFields()))[k] == FirstRowPrinted()[k]
    {
      FirstRowPrintedAt(k);
    }
  }

  /** The first-row test: nine `play_move` calls on a new game, then `print_to`. */
  lemma PrintFirstRowTest()
    ensures PrintTo(DecideAll(New(), FirstRowWrites())) == FirstRowPrinted()
  {
    FirstRowByWrites();
    PrintFirstRowFilled();
  }

  /** `DigitsFrom` is the one ascending list of exactly the digits `d..=9` that satisfy `ok`. */
  lemma DigitsFromExact(ok: int -> bool, d: int, want: seq<int>)
    requires 1 <= d <= 10
    requires Ascending(want)
    requires forall k | 0 <= k < |want| :: d <= want[k] <= 9
    requires forall e | d <= e <= 9 :: ok(e) <==> e in want
    ensures DigitsFrom(ok, d) == want
  {
    var r := DigitsFrom(ok, d);
    forall x
      ensures x in r <==> x in want
    {
      if x in want {
        var k :| 0 <= k < |want| && want[k] == x;
      }
    }
    AscendingUnique(r, want);
  }

  /**
   * `possible_digits_at` is determined by its contract: an ascending list
   * holding exactly the free digits is the result.
   */
  lemma PossibleDigitsExact(s: Sudoku, i: Cell, want: seq<int>)
    requires Ascending(want)
    requires forall k | 0 <= k < |want| :: 1 <= want[k] <= 9
    requires forall e | 1 <= e <= 9 :: Free(s.fields, i, e) <==> e in want
    ensures PossibleDigitsAt(s, i) == want
  {
    AllowedIffFreeAll(s.fields, i);
    DigitsFromExact(e => Allowed(s.fields, i, e), 1, want);
  }

  /** The writes of the row test: 2 into cell 0, 5 into cell 8, and 5 into cell 69, which shares nothing with cell 1. */
  function RowTestWrites(): seq<WriteDigit> {
    [WriteDigit(0, 2), WriteDigit(8, 5), WriteDigit(7 * 9 + 6, 5)]
  }

  lemma RowTestByWrites()
    ensures DecideAll(New(), RowTestWrites()) == Sudoku(EmptyFields()[0 := 2][8 := 5][7 * 9 + 6 := 5])
  {
    var w := RowTestWrites();
    DecideAllSnoc(New(), [], w[0]);
    DecideAllSnoc(New(), [w[0]], w[1]);
    DecideAllSnoc(New(), [w[0], w[1]], w[2]);
  }

  /** With 2 in the row and 5 in the row's last cell, cell 1 takes exactly 1, 3, 4, 6, 7, 8 and 9; a 5 elsewhere plays no role. */
  lemma PreventSameDigitTwiceInSameRow()
    ensures PossibleDigitsAt(DecideAll(New(), RowTestWrites()), 1) == [1, 3, 4, 6, 7, 8, 9]
  {
    RowTestByWrites();
    var f := EmptyFields()[0 := 2][8 := 5][7 * 9 + 6 := 5];
    assert forall j | 0 <= j < 81 :: f[j] in {0, 2, 5};
    assert !Free(f, 1, 2) by {
      assert RowOf(0) == RowOf(1);
    }
    assert !Free(f, 1, 5) by {
      assert RowOf(8) == RowOf(1);
    }
    assert Ascending([1, 3, 4, 6, 7, 8, 9]);
    PossibleDigitsExact(Sudoku(f), 1, [1, 3, 4, 6, 7, 8, 9]);
  }

  /** With 2 above and 5 below in the same column, cell 21 takes exactly 1, 3, 4, 6, 7, 8 and 9. */
  lemma PreventSameDigitTwiceInSameCol()
    ensures PossibleDigitsAt(DecideAll(New(), ColTestWrites()), 3 + 9 * 2) == [1, 3, 4, 6, 7, 8, 9]
  {
    ColTestByWrites();
    var f := EmptyFields()[3 := 2][3 + 9 * 5 := 5];
    assert forall j | 0 <= j < 81 :: f[j] in {0, 2, 5};
    assert !Free(f, 21, 2) by {
      assert ColOf(3) == ColOf(21);
    }
    assert !Free(f, 21, 5) by {
      assert ColOf(48) == ColOf(21);
    }
    assert Ascending([1, 3, 4, 6, 7, 8, 9]);
    PossibleDigitsExact(Sudoku(f), 21, [1, 3, 4, 6, 7, 8, 9]);
  }

  /** The writes of the column test: 2 into cell 3 and 5 into cell 48, both in column 3. */
  function ColTestWrites(): seq<WriteDigit> {
    [WriteDigit(3, 2), WriteDigit(3 + 9 * 5, 5)]
  }

  lemma ColTestByWrites()
    ensures DecideAll(New(), ColTestWrites()) == Sudoku(EmptyFields()[3 := 2][3 + 9 * 5 := 5])
  {
    var w := ColTestWrites();
    DecideAllSnoc(New(), [], w[0]);
    DecideAllSnoc(New(), [w[0]], w[1]);
  }

  /** The grid of the short-circuit test: 1 to 8 in the first row and 9 in cell 17. */
  function DeadEndFields(): Fields {
    EmptyFields()[0 := 1][1 := 2][2 := 3][3 := 4][4 := 5][5 := 6][6 := 7][7 := 8][9 + 8 := 9]
  }

  /** The nine writes of the short-circuit test: digit `k + 1` into cell `k` for `k < 8`, then 9 into cell 17. */
  function DeadEndWrites(): seq<WriteDigit> {
    seq(8, k requires 0 <= k < 8 => WriteDigit(k, k + 1)) + [WriteDigit(9 + 8, 9)]
  }

  /** Playing the writes of the short-circuit test on the empty grid gives its grid. */
  lemma DeadEndByWrites()
    ensures DecideAll(New(), DeadEndWrites()) == Sudoku(DeadEndFields())
  {
    var w := DeadEndWrites();
    var f := DeadEndFields();
    var g := DecideAll(New(), w);
    forall i | 0 <= i < 81
      ensures g.fields[i] == f[i]
    {
      if i < 8 {
        assert w[i].index == i;
      } else if i == 17 {
        assert w[8].index == 17;
      } else {
        assert forall k | 0 <= k < 9 :: w[k].index != i;
      }
    }
    assert g.fields == f;
  }

  /**
   * Cell 8, the first empty one, takes no digit, so no decision is offered
   * and whatever the buffer held is cleared.
   */
  lemma ShortCircuitDeadEnd(buffer: seq<WriteDigit>)
    ensures PossibleDigitsAt(DecideAll(New(), DeadEndWrites()), 8) == []
    ensures NextDecisions(DecideAll(New(), DeadEndWrites()), buffer) == []
  {
    DeadEndByWrites();
    var f := DeadEndFields();
    forall e | 1 <= e <= 9
      ensures !Free(f, 8, e)
    {
      if e <= 8 {
        assert f[e - 1] == e && RowOf(e - 1) == RowOf(8);
      } else {
        assert f[17] == 9 && SameBlock(8, 17);
      }
    }
    PossibleDigitsExact(Sudoku(f), 8, []);
    DeadEndFirstEmpty();
  }

  /** Cell 8 is the first empty cell of the short-circuit grid. */
  lemma DeadEndFirstEmpty()
    ensures FirstEmpty(DeadEndFields(), 0) == Some(8)
  {
    var f := DeadEndFields();
    assert f[..9] == [1, 2, 3, 4, 5, 6, 7, 8, 0];
    assert IsFirstEmpty(f, 8) by {
      forall j | 0 <= j < 8 ensures f[j] != 0 {
        assert f[j] == f[..9][j];
      }
    }
  }
}
