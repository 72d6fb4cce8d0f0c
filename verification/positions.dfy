/**
 * A square of the 8x8 chessboard, stored as the index `row * 8 + column`,
 * and the squares a knight can jump to from it.
 */
module Positions {
  import opened Seqs

  /** Squares on the board, `NUM_FIELDS`. */
  const NumFields := 64

  /** The 64 square indices; every position built from a row and column in 0..8 has one. */
  type Index = i: int | 0 <= i < NumFields

  datatype Position = Position(index: Index)

  /** `Position::new`, for a row and a column on the board. */
  function New(row: int, column: int): (p: Position)
    requires 0 <= row < 8 && 0 <= column < 8
    ensures Row(p) == row && Column(p) == column
  {
    Position(row * 8 + column)
  }

  /** `Position::row`: the row of the square, counted from zero. */
  function Row(p: Position): (r: int)
    ensures 0 <= r < 8
  {
    p.index / 8
  }

  /** `Position::column`: what remains of the index once the row's eight squares per row are taken off. */
  function Column(p: Position): (c: int)
    ensures 0 <= c < 8
    ensures c == p.index - 8 * Row(p)
  {
    p.index % 8
  }

  /** `Position::as_index`: the index into a 64-entry board array. */
  function AsIndex(p: Position): (i: nat)
    ensures i < 64
    ensures i == 8 * Row(p) + Column(p)
  {
    p.index
  }

  /** Row and column determine the position. */
  lemma NewRowColumn(p: Position)
    ensures 0 <= Row(p) < 8 && 0 <= Column(p) < 8
    ensures New(Row(p), Column(p)) == p
  {
  }

  /* ---------------------------------------------------------------------- */
  /* Knight moves                                                            */
  /* ---------------------------------------------------------------------- */

  /** The offsets of the `MOVES` table, in table order. */
  const Moves: seq<(int, int)> := [(-2, -1), (-2, 1), (-1, -2), (-1, 2), (1, -2), (1, 2), (2, -1), (2, 1)]

  function Abs(x: int): nat {
    if x < 0 then -x else x
  }

  /** Reference definition: `q` is one knight's jump away from `p`. */
  predicate KnightMove(p: Position, q: Position) {
    var dr := Abs(Row(q) - Row(p));
    var dc := Abs(Column(q) - Column(p));
    (dr == 1 && dc == 2) || (dr == 2 && dc == 1)
  }

  /** The jump from `p` to `q`, as an entry of the `MOVES` table would state it. */
  function Offset(p: Position, q: Position): (int, int) {
    (Row(p) - Row(q), Column(p) - Column(q))
  }

  /** No offset occurs twice in the table. */
  lemma MovesDistinct()
    ensures forall i, j | 0 <= i < j < |Moves| :: Moves[i] != Moves[j]
  {
  }

  /** Entry `k` of the table does not occur again after it. */
  lemma MoveNotRepeated(k: nat)
    requires k < |Moves|
    ensures Moves[k] !in Moves[k + 1..]
  {
    MovesDistinct();
    var later := Moves[k + 1..];
    forall j | 0 <= j < |later|
      ensures later[j] != Moves[k]
    {
      assert later[j] == Moves[k + 1 + j];
    }
  }

  /** Whether the targets `r` from `p` are distinct and use entries of the table from `k` on. */
  predicate TableTargets(p: Position, k: nat, r: seq<Position>)
    requires k <= |Moves|
  {
    && (forall i | 0 <= i < |r| :: Offset(p, r[i]) in Moves[k..])
    && Distinct(r)
  }

  /** Targets using table entries after `k` use entries from `k` on. */
  lemma TableTargetsSkip(p: Position, k: nat, rest: seq<Position>)
    requires k < |Moves| && TableTargets(p, k + 1, rest)
    ensures TableTargets(p, k, rest)
  {
    SuffixCons(Moves, k);
  }

  /** The target of table entry `k` differs from every target using a later entry, so it can go in front. */
  lemma TableTargetsCons(p: Position, k: nat, rest: seq<Position>, head: Position)
    requires k < |Moves| && TableTargets(p, k + 1, rest)
    requires Offset(p, head) == Moves[k]
    ensures TableTargets(p, k, [head] + rest)
  {
    MoveNotRepeated(k);
    ConsKeyed(q => Offset(p, q), Moves, k, head, rest);
  }

  /** The targets of the table entries `k..8` from `p` that stay on the board, in table order. */
  function TargetsFrom(p: Position, k: nat): (r: seq<Position>)
    requires k <= |Moves|
    ensures |r| <= |Moves| - k
    ensures TableTargets(p, k, r)
    decreases |Moves| - k
  {
    if k == |Moves| then []
    else
      var (dr, dc) := Moves[k];
      var row := Row(p) - dr;
      var column := Column(p) - dc;
      var rest := TargetsFrom(p, k + 1);
      if 0 <= row < 8 && 0 <= column < 8 then
        var head := New(row, column);
        TableTargetsCons(p, k, rest, head);
        [head] + rest
      else
        TableTargetsSkip(p, k, rest);
        rest
  }

  /**
   * `Position::reachable_fields`: the buffer is cleared first, so the result
   * depends on `p` only; it lists the on-board knight targets in `MOVES` order.
   */
  function ReachableFields(p: Position, buffer: seq<Position>): (r: seq<Position>)
    ensures |r| <= 8
    ensures forall i | 0 <= i < |r| :: KnightMove(p, r[i])
    ensures forall i, j | 0 <= i < j < |r| :: r[i] != r[j]
  {
    var r := TargetsFrom(p, 0);
    assert Moves[0..] == Moves;
    forall i | 0 <= i < |r|
      ensures KnightMove(p, r[i])
    {
      TableMoveIsKnightMove(p, r[i]);
    }
    r
  }

  /** Every entry of the table is a knight's jump. */
  lemma TableMoveIsKnightMove(p: Position, q: Position)
    requires Offset(p, q) in Moves
    ensures KnightMove(p, q)
  {
  }

  lemma {:induction false} TargetsFromComplete(p: Position, k: nat, q: Position)
    requires k <= |Moves|
    requires Offset(p, q) in Moves[k..]
    ensures q in TargetsFrom(p, k)
    decreases |Moves| - k
  {
    SuffixCons(Moves, k);
    if Offset(p, q) == Moves[k] {
      NewRowColumn(q);
      assert TargetsFrom(p, k)[0] == q;
    } else {
      TargetsFromComplete(p, k + 1, q);
    }
  }

  /** The buffer is cleared before it is filled, so its old contents do not matter. */
  lemma ReachableFieldsIgnoresBuffer(p: Position, b1: seq<Position>, b2: seq<Position>)
    ensures ReachableFields(p, b1) == ReachableFields(p, b2)
  {
  }

  /** Every square a knight's jump away is listed (the converse is in the contract). */
  lemma ReachableFieldsComplete(p: Position, buffer: seq<Position>, q: Position)
    requires KnightMove(p, q)
    ensures q in ReachableFields(p, buffer)
  {
    assert Offset(p, q) in Moves;
    assert Moves[0..] == Moves;
    TargetsFromComplete(p, 0, q);
  }

  /** From the corner A1 the knight reaches (2, 1) and then (1, 2), in this order. */
  lemma ReachableFromCorner(buffer: seq<Position>)
    ensures ReachableFields(New(0, 0), buffer) == [New(2, 1), New(1, 2)]
  {
  }

  /* ---------------------------------------------------------------------- */
  /* Display                                                                 */
  /* ---------------------------------------------------------------------- */

  /** `Display`: the row as a letter from `A`, then the column counted from one. */
  function Show(p: Position): (s: string)
    ensures |s| == 2
    ensures 'A' <= s[0] <= 'H' && '1' <= s[1] <= '8'
    ensures s[0] as int - 'A' as int == Row(p)
    ensures s[1] as int - '1' as int == Column(p)
  {
    [('A' as int + Row(p)) as char, ('1' as int + Column(p)) as char]
  }

  /** Different squares print differently. */
  lemma ShowInjective(p: Position, q: Position)
    requires Show(p) == Show(q)
    ensures p == q
  {
    assert Row(p) == Show(p)[0] as int - 'A' as int;
    assert Column(p) == Show(p)[1] as int - '1' as int;
    NewRowColumn(p);
    NewRowColumn(q);
  }

  /** A list of squares as `Display` implementations write it: the first, then each further one after a space. */
  function ShowSpaced(ms: seq<Position>): (s: string)
    requires |ms| > 0
    ensures |s| == 3 * |ms| - 1
    ensures forall i | 0 <= i < |ms| :: s[3 * i..3 * i + 2] == Show(ms[i])
    ensures forall i | 0 < i < |ms| :: s[3 * i - 1] == ' '
  {
    var tail := Spaced(ms[1..]);
    var s := Show(ms[0]) + tail;
    forall i | 0 < i < |ms|
      ensures s[3 * i - 1] == ' ' && s[3 * i..3 * i + 2] == Show(ms[i])
    {
      assert s[3 * i - 1] == tail[3 * (i - 1)];
      assert s[3 * i..3 * i + 2] == tail[3 * (i - 1) + 1..3 * (i - 1) + 3];
    }
    assert s[0..2] == Show(ms[0]);
    s
  }

  /** Each square preceded by a space. */
  function Spaced(ms: seq<Position>): (s: string)
    ensures |s| == 3 * |ms|
    ensures forall i | 0 <= i < |ms| :: s[3 * i] == ' ' && s[3 * i + 1..3 * i + 3] == Show(ms[i])
  {
    if |ms| == 0 then ""
    else Spaced(ms[..|ms| - 1]) + " " + Show(ms[|ms| - 1])
  }

  lemma ShowCorner()
    ensures Show(New(0, 0)) == "A1"
  {
  }
}
