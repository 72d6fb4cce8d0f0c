/**
 * The n-queens puzzle as a problem for the backtracking engine: queens are
 * placed row by row, each in a column where it attacks no queen placed
 * before.
 */
module NQueensGame {
  import opened Options
  import opened Seqs
  import BT = Backtracking

  /** A queen on the board, by row and column (unsigned in the Rust code). */
  datatype QueenAt = QueenAt(row: nat, column: nat)

  /** The board size and the queens placed so far, in placement order. */
  datatype NQueens = NQueens(n: nat, queens: seq<QueenAt>)

  /** `NQueens::new`: an `n` by `n` board without queens. */
  function New(n: nat): (b: NQueens)
    ensures b.n == n && |b.queens| == 0
  {
    NQueens(n, [])
  }

  /* ---------------------------------------------------------------------- */
  /* Conflicts                                                               */
  /* ---------------------------------------------------------------------- */

  /** `u32::abs_diff`. */
  function AbsDiff(a: nat, b: nat): (d: nat)
    ensures d == a - b || d == b - a
  {
    if a < b then b - a else a - b
  }

  /**
   * `QueenAt::conflicts`: the two queens share a row, a column or a diagonal.
   * The contract gives the reference definition of the diagonals: two squares
   * share one exactly when their row-minus-column or their row-plus-column agree.
   */
  function Conflicts(a: QueenAt, b: QueenAt): (c: bool)
    ensures c <==>
      || a.row == b.row
      || a.column == b.column
      || a.row - a.column == b.row - b.column
      || a.row + a.column == b.row + b.column
  {
    || a.row == b.row
    || a.column == b.column
    || AbsDiff(a.row, b.row) == AbsDiff(a.column, b.column)
  }

  /** Conflict is symmetric and every queen conflicts with itself. */
  lemma ConflictsSymmetricReflexive(a: QueenAt, b: QueenAt)
    ensures Conflicts(a, b) <==> Conflicts(b, a)
    ensures Conflicts(a, a)
  {
  }

  /** No placed queen conflicts with `q`: the `all` filter of `next_decisions`. */
  predicate Safe(queens: seq<QueenAt>, q: QueenAt) {
    forall k | 0 <= k < |queens| :: !Conflicts(queens[k], q)
  }

  /* ---------------------------------------------------------------------- */
  /* The problem operations                                                  */
  /* ---------------------------------------------------------------------- */

  /** The queens of row `|queens|`, for the columns `col..n` in order, that conflict with no placed queen. */
  function RowCandidates(b: NQueens, col: nat): (r: seq<QueenAt>)
    requires col <= b.n
    ensures forall k | 0 <= k < |r| ::
      r[k].row == |b.queens| && col <= r[k].column < b.n && Safe(b.queens, r[k])
    ensures forall c | col <= c < b.n && Safe(b.queens, QueenAt(|b.queens|, c)) :: QueenAt(|b.queens|, c) in r
    ensures forall k, l | 0 <= k < l < |r| :: r[k].column < r[l].column
    decreases b.n - col
  {
    if col == b.n then []
    else
      var q := QueenAt(|b.queens|, col);
      var rest := RowCandidates(b, col + 1);
      if Safe(b.queens, q) then [q] + rest else rest
  }

  /**
   * `next_decisions`: once `n` queens stand the buffer is left alone;
   * otherwise every queen of the next row that conflicts with no placed
   * queen is appended, by ascending column.
   */
  function NextDecisions(b: NQueens, buffer: seq<QueenAt>): (r: seq<QueenAt>)
    ensures |b.queens| == b.n ==> r == buffer
    ensures |buffer| <= |r| && r[..|buffer|] == buffer
    ensures |b.queens| != b.n ==> forall k | |buffer| <= k < |r| ::
      r[k].row == |b.queens| && r[k].column < b.n && Safe(b.queens, r[k])
    ensures |b.queens| != b.n ==> forall c | 0 <= c < b.n && Safe(b.queens, QueenAt(|b.queens|, c)) ::
      QueenAt(|b.queens|, c) in r[|buffer|..]
    ensures forall k, l | |buffer| <= k < l < |r| :: r[k].column < r[l].column
  {
    if |b.queens| == b.n then buffer
    else
      var r := buffer + RowCandidates(b, 0);
      assert r[..|buffer|] == buffer;
      assert r[|buffer|..] == RowCandidates(b, 0);
      r
  }

  /** `decide`: the queen is placed after all others. */
  function Decide(b: NQueens, next: QueenAt): (r: NQueens)
    ensures r.n == b.n && |r.queens| == |b.queens| + 1
    ensures r.queens[..|b.queens|] == b.queens && r.queens[|b.queens|] == next
  {
    NQueens(b.n, b.queens + [next])
  }

  /** `undo`: the most recently placed queen is removed; `Vec::pop` on no queens changes nothing. */
  function Undo(b: NQueens, last: QueenAt, history: seq<QueenAt>): (r: NQueens)
    ensures r.n == b.n
    ensures |b.queens| == 0 ==> r == b
    ensures |b.queens| > 0 ==> r.queens == b.queens[..|b.queens| - 1]
  {
    if |b.queens| == 0 then b else NQueens(b.n, b.queens[..|b.queens| - 1])
  }

  /** Placing a queen and undoing it restores the board, whatever was decided. */
  lemma DecideUndo(b: NQueens, next: QueenAt, history: seq<QueenAt>)
    ensures Undo(Decide(b, next), next, history) == b
  {
    assert (b.queens + [next])[..|b.queens|] == b.queens;
  }

  /** `is_solution`: the board itself, once `n` queens stand on it. */
  function IsSolution(b: NQueens, history: seq<QueenAt>): (r: Option<NQueens>)
    ensures r.Some? <==> |b.queens| == b.n
    ensures r.Some? ==> r.value == b
  {
    if |b.queens| == b.n then Some(b) else None
  }

  /* ---------------------------------------------------------------------- */
  /* Display                                                                 */
  /* ---------------------------------------------------------------------- */

  predicate SortedByRow(s: seq<QueenAt>) {
    forall k, l | 0 <= k < l < |s| :: s[k].row <= s[l].row
  }

  /** Appending a queen whose row is at least every other row keeps the sequence sorted. */
  lemma SortedSnoc(s: seq<QueenAt>, q: QueenAt)
    requires SortedByRow(s)
    requires forall k | 0 <= k < |s| :: s[k].row <= q.row
    ensures SortedByRow(s + [q])
  {
    var t := s + [q];
    forall k, l | 0 <= k < l < |t|
      ensures t[k].row <= t[l].row
    {
      assert t[k] == s[k];
    }
  }

  /** In a row-sorted sequence no queen lies below the last one. */
  lemma SortedLast(s: seq<QueenAt>)
    requires SortedByRow(s) && |s| > 0
    ensures forall k | 0 <= k < |s| :: s[k].row <= s[|s| - 1].row
  {
  }

  /** Inserts `q` into a row-sorted sequence after every queen of a row up to its own, as a stable sort does. */
  function InsertByRow(s: seq<QueenAt>, q: QueenAt): (r: seq<QueenAt>)
    requires SortedByRow(s)
    ensures SortedByRow(r)
    ensures multiset(r) == multiset(s) + multiset{q}
    ensures forall k | 0 <= k < |r| :: r[k].row <= q.row || (|s| > 0 && r[k].row <= s[|s| - 1].row)
    ensures |s| > 0 && s[|s| - 1].row <= q.row ==> r == s + [q]
  {
    if |s| == 0 then [q]
    else if s[|s| - 1].row <= q.row then
      SortedLast(s);
      SortedSnoc(s, q);
      s + [q]
    else
      var front := s[..|s| - 1];
      var last := s[|s| - 1];
      var ins := InsertByRow(front, q);
      assert |front| > 0 ==> front[|front| - 1].row <= last.row;
      assert forall k | 0 <= k < |ins| :: ins[k].row <= last.row;
      SortedSnoc(ins, last);
      MultisetSnoc(s, ins, q);
      ins + [last]
  }

  /** `sort_by_key(|q| q.row)`: the same queens, ordered by row. */
  function SortByRow(s: seq<QueenAt>): (r: seq<QueenAt>)
    ensures SortedByRow(r)
    ensures multiset(r) == multiset(s)
  {
    if |s| == 0 then []
    else
      var front := s[..|s| - 1];
      FrontLast(s);
      InsertByRow(SortByRow(front), s[|s| - 1])
  }

  /** Queens already in strictly increasing rows are left in place by the sort. */
  lemma {:induction false} SortByRowKeepsRowOrder(s: seq<QueenAt>)
    requires forall k, l | 0 <= k < l < |s| :: s[k].row < s[l].row
    ensures SortByRow(s) == s
    decreases |s|
  {
    if |s| > 0 {
      var front := s[..|s| - 1];
      var last := s[|s| - 1];
      forall k, l | 0 <= k < l < |front|
        ensures front[k].row < front[l].row
      {
        assert front[k] == s[k] && front[l] == s[l];
      }
      SortByRowKeepsRowOrder(front);
      assert SortByRow(s) == InsertByRow(front, last);
      if |front| > 0 {
        assert front[|front| - 1] == s[|s| - 2];
      }
      FrontLast(s);
    }
  }

  /** One printed line: `column` dots, a `Q`, then dots up to width `n`, then a line break. */
  function Line(n: nat, q: QueenAt): (r: string)
    requires q.column < n
    ensures |r| == n + 1
    ensures forall c | 0 <= c < n :: r[c] == if c == q.column then 'Q' else '.'
    ensures r[n] == '\n'
  {
    Repeat('.', q.column) + "Q" + Repeat('.', n - q.column - 1) + "\n"
  }

  /** Line `k` of the printout `r` of an `n` board shows `q`; it starts at `Stride(k, n + 1)`, which is `k * (n + 1)`. */
  predicate LineAt(r: string, n: nat, k: nat, q: QueenAt) {
    && q.column < n
    && ChunkAt(r, k, n + 1, Line(n, q))
  }

  /** The lines of `qs`, in the given order. */
  function Lines(n: nat, qs: seq<QueenAt>): (r: string)
    requires forall k | 0 <= k < |qs| :: qs[k].column < n
    ensures |r| == Stride(|qs|, n + 1)
    ensures forall k | 0 <= k < |qs| :: LineAt(r, n, k, qs[k])
  {
    var lines := seq(|qs|, k requires 0 <= k < |qs| => Line(n, qs[k]));
    var r := Concat(lines);
    ConcatChunks(lines, n + 1);
    forall k | 0 <= k < |qs|
      ensures LineAt(r, n, k, qs[k])
    {
      assert ChunkAt(r, k, n + 1, lines[k]);
    }
    r
  }

  /**
   * `Display`: one line per queen in row order, each of width `n` with the
   * `Q` in the queen's column. Every column must be below `n`: the Rust code
   * computes `n - column - 1` in unsigned arithmetic.
   */
  function Show(b: NQueens): (r: string)
    requires forall k | 0 <= k < |b.queens| :: b.queens[k].column < b.n
    ensures var sorted := SortByRow(b.queens);
      && SortedByRow(sorted) && multiset(sorted) == multiset(b.queens) && |sorted| == |b.queens|
      && forall k | 0 <= k < |sorted| :: LineAt(r, b.n, k, sorted[k])
  {
    var sorted := SortByRow(b.queens);
    SortKeepsColumns(b.queens, b.n);
    Lines(b.n, sorted)
  }

  /** The printout has `n + 1` characters per queen: `Stride(m, n + 1)` is `m * (n + 1)`. */
  lemma ShowLength(b: NQueens)
    requires forall k | 0 <= k < |b.queens| :: b.queens[k].column < b.n
    ensures |Show(b)| == Stride(|b.queens|, b.n + 1)
  {
    SortKeepsColumns(b.queens, b.n);
  }

  /** Sorting keeps the number of queens and the bound on their columns. */
  lemma SortKeepsColumns(qs: seq<QueenAt>, n: nat)
    requires forall k | 0 <= k < |qs| :: qs[k].column < n
    ensures |SortByRow(qs)| == |qs|
    ensures forall k | 0 <= k < |SortByRow(qs)| :: SortByRow(qs)[k].column < n
  {
    var sorted := SortByRow(qs);
    assert |sorted| == |multiset(sorted)| == |qs|;
    forall k | 0 <= k < |sorted|
      ensures sorted[k].column < n
    {
      assert sorted[k] in multiset(qs);
    }
  }

  /* ---------------------------------------------------------------------- */
  /* N-queens as a problem for the engine                                    */
  /* ---------------------------------------------------------------------- */

  /** The `Problem` implementation. */
  function Instance(): BT.Problem<NQueens, QueenAt, NQueens> {
    BT.Problem((b: NQueens, buffer: seq<QueenAt>, h: seq<QueenAt>) => NextDecisions(b, buffer),
               Undo, Decide, IsSolution)
  }

  /** N-queens meets the engine's contract: `undo` reverts `decide` on every board. */
  lemma UndoInverts(init: NQueens)
    ensures BT.UndoInverts(Instance(), init)
  {
    var p := Instance();
    forall h | 0 < |h| && BT.Legal(p, init, h)
      ensures p.undo(BT.Replay(p, init, h), h[|h| - 1], h[..|h| - 1]) == BT.Replay(p, init, h[..|h| - 1])
    {
      DecideUndo(BT.Replay(p, init, h[..|h| - 1]), h[|h| - 1], h[..|h| - 1]);
    }
  }

  /**
   * A valid partial placement on an `n` board: queen `i` stands in row `i`
   * and a column below `n`, and no two queens conflict.
   */
  predicate Placement(n: nat, queens: seq<QueenAt>) {
    && |queens| <= n
    && (forall i | 0 <= i < |queens| :: queens[i].row == i && queens[i].column < n)
    && (forall i, j | 0 <= i < j < |queens| :: !Conflicts(queens[i], queens[j]))
  }

  /** A safe queen in the next row, in a column below `n`, extends a valid placement of fewer than `n` queens. */
  lemma PlacementSnoc(n: nat, queens: seq<QueenAt>, d: QueenAt)
    requires Placement(n, queens) && |queens| < n
    requires d.row == |queens| && d.column < n && Safe(queens, d)
    ensures Placement(n, queens + [d])
  {
    var q' := queens + [d];
    forall i | 0 <= i < |q'|
      ensures q'[i].row == i && q'[i].column < n
    {
      if i < |queens| {
        assert q'[i] == queens[i];
      }
    }
    forall i, j | 0 <= i < j < |q'|
      ensures !Conflicts(q'[i], q'[j])
    {
      if j == |queens| {
        assert q'[j] == d && q'[i] == queens[i];
      } else {
        assert q'[i] == queens[i] && q'[j] == queens[j];
      }
    }
  }

  /** A queen offered for the next row extends a valid placement. */
  lemma PlaceStep(n: nat, queens: seq<QueenAt>, d: QueenAt)
    requires Placement(n, queens)
    requires d in NextDecisions(NQueens(n, queens), [])
    ensures Placement(n, queens + [d])
  {
    var r := NextDecisions(NQueens(n, queens), []);
    assert |queens| != n;
    var k :| 0 <= k < |r| && r[k] == d;
    assert d.row == |queens| && d.column < n && Safe(queens, d);
    PlacementSnoc(n, queens, d);
  }

  /** Along every legal history from the empty board, the queens are the history and form a valid placement. */
  lemma {:induction false} ReplayPlacement(n: nat, h: seq<QueenAt>)
    requires BT.Legal(Instance(), New(n), h)
    ensures BT.Replay(Instance(), New(n), h) == NQueens(n, h)
    ensures Placement(n, h)
    decreases |h|
  {
    var p := Instance();
    if |h| > 0 {
      var front := h[..|h| - 1];
      var d := h[|h| - 1];
      BT.LegalPrefix(p, New(n), h, |h| - 1);
      BT.LegalAt(p, New(n), h, |h| - 1);
      ReplayPlacement(n, front);
      assert BT.Children(p, New(n), front) == NextDecisions(NQueens(n, front), []);
      PlaceStep(n, front, d);
      FrontLast(h);
    }
  }

  /**
   * A solution found along a legal history places `n` queens, one per row in
   * row order, no two attacking each other, and prints them in that order.
   */
  lemma SolutionIsPlacement(n: nat, h: seq<QueenAt>)
    requires BT.Legal(Instance(), New(n), h)
    requires IsSolution(BT.Replay(Instance(), New(n), h), h).Some?
    ensures var s := IsSolution(BT.Replay(Instance(), New(n), h), h).value;
      && |s.queens| == n
      && Placement(n, s.queens)
      && SortByRow(s.queens) == s.queens
  {
    ReplayPlacement(n, h);
    SortByRowKeepsRowOrder(h);
  }
}
