/**
 * The knight's journey as a problem for the backtracking engine: a visited
 * flag per square, the knight's square and the start square, updated in
 * place by `play_move` and reverted by `undo`.
 */
module KnightsJourney {
  import opened Options
  import opened Seqs
  import opened Positions
  import BT = Backtracking

  /** One visited flag per square index. */
  type Flags = s: seq<bool> | |s| == NumFields witness seq(NumFields, _ => false)

  datatype Journey = Journey(visited: Flags, current: Position, start: Position)

  /** The 64 squares of a complete journey, in the order visited. */
  datatype Solution = Solution(moves: seq<Position>)

  /**
   * `Board::reachable_fields` for a given square. Its definition is not part
   * of this model, so the board is a parameter of the operations that use it.
   */
  type Board = Position -> seq<Position>

  /** The last decision of the history, or `start` when there is none. */
  function LastOr(h: seq<Position>, start: Position): Position {
    if |h| == 0 then start else h[|h| - 1]
  }

  /** After the first `k` decisions the knight stands on square `k` of the start followed by the history. */
  lemma LastOrPrefix(h: seq<Position>, start: Position, k: nat)
    requires k <= |h|
    ensures LastOr(h[..k], start) == ([start] + h)[k]
  {
  }

  /** `Journey::new`: only the start square is visited, and the knight stands on it. */
  function New(start: Position): (j: Journey)
    ensures j.current == start && j.start == start
    ensures forall q: Position :: j.visited[q.index] <==> q == start
  {
    Journey(seq(NumFields, i => i == start.index), start, start)
  }

  /**
   * `next_decisions`: the board's targets from the knight's square, with
   * every visited square removed, in the board's order. `buffer` is not
   * read: the board is taken to replace the buffer's contents, as
   * `Position::reachable_fields` does. The engine always passes an empty
   * buffer, so appending instead would give the same result there.
   */
  function NextDecisions(board: Board, j: Journey, buffer: seq<Position>): (r: seq<Position>)
    ensures forall i | 0 <= i < |r| :: r[i] in board(j.current) && !j.visited[r[i].index]
    ensures forall i | 0 <= i < |board(j.current)| && !j.visited[board(j.current)[i].index] ::
      board(j.current)[i] in r
    ensures forall q: Position :: multiset(r)[q] == if !j.visited[q.index] then multiset(board(j.current))[q] else 0
  {
    Retain(board(j.current), (q: Position) => !j.visited[q.index])
  }

  /** `play_move`: the knight jumps to `next`, which becomes visited. */
  function PlayMove(j: Journey, next: Position): (r: Journey)
    ensures r.current == next && r.start == j.start
    ensures r.visited[next.index]
    ensures forall q: Position | q != next :: r.visited[q.index] == j.visited[q.index]
  {
    Journey(j.visited[next.index := true], next, j.start)
  }

  /** `undo`: `last` is no longer visited and the knight returns to the end of `history`, or to the start. */
  function Undo(j: Journey, last: Position, history: seq<Position>): (r: Journey)
    ensures r.current == LastOr(history, j.start) && r.start == j.start
    ensures !r.visited[last.index]
    ensures forall q: Position | q != last :: r.visited[q.index] == j.visited[q.index]
  {
    Journey(j.visited[last.index := false], LastOr(history, j.start), j.start)
  }

  /** Playing an unvisited square and undoing it restores the journey, when the knight stood at the history's end. */
  lemma PlayUndo(j: Journey, next: Position, history: seq<Position>)
    requires !j.visited[next.index]
    requires j.current == LastOr(history, j.start)
    ensures Undo(PlayMove(j, next), next, history) == j
  {
    assert j.visited[next.index := true][next.index := false] == j.visited;
  }

  /** `is_solution`: once 63 moves follow the start, the solution is the start followed by the history. */
  function IsSolution(j: Journey, history: seq<Position>): (r: Option<Solution>)
    ensures r.Some? <==> |history| == NumFields - 1
    ensures r.Some? ==> r.value.moves == [j.start] + history
  {
    if |history| == NumFields - 1 then Some(Solution([j.start] + history)) else None
  }

  /** `Display` of a solution: the 64 squares separated by single spaces. */
  function Show(s: Solution): (r: string)
    requires |s.moves| == NumFields
    ensures |r| == 3 * NumFields - 1
    ensures forall i | 0 <= i < NumFields :: r[3 * i..3 * i + 2] == Positions.Show(s.moves[i])
    ensures forall i | 0 < i < NumFields :: r[3 * i - 1] == ' '
  {
    ShowSpaced(s.moves)
  }

  /* ---------------------------------------------------------------------- */
  /* The journey as a problem for the engine                                 */
  /* ---------------------------------------------------------------------- */

  /** The `Problem` implementation, over a given board. */
  function Instance(board: Board): BT.Problem<Journey, Position, Solution> {
    BT.Problem((j: Journey, buffer: seq<Position>, h: seq<Position>) => NextDecisions(board, j, buffer),
               Undo, PlayMove, IsSolution)
  }

  /**
   * The journey after the decisions `h` from `start`: the start is kept, the
   * knight stands on the last square, exactly the start and the squares of
   * `h` are visited, and none of them occurs twice.
   */
  ghost predicate Consistent(j: Journey, start: Position, h: seq<Position>) {
    && j.start == start
    && j.current == LastOr(h, start)
    && (forall q: Position :: j.visited[q.index] <==> q in [start] + h)
    && Distinct([start] + h)
  }

  /** Playing an offered square extends the consistency to the longer history. */
  lemma PlayConsistent(board: Board, j: Journey, start: Position, h: seq<Position>, d: Position)
    requires Consistent(j, start, h)
    requires d in NextDecisions(board, j, [])
    ensures Consistent(PlayMove(j, d), start, h + [d])
  {
    var j' := PlayMove(j, d);
    assert !j.visited[d.index];
    assert d !in [start] + h;
    assert [start] + (h + [d]) == ([start] + h) + [d];
    forall q: Position
      ensures j'.visited[q.index] <==> q in [start] + (h + [d])
    {
      if q != d {
        assert j'.visited[q.index] == j.visited[q.index];
      }
    }
  }

  /** Every legal history leads to a journey consistent with it. */
  lemma {:induction false} ReplayConsistent(board: Board, start: Position, h: seq<Position>)
    requires BT.Legal(Instance(board), New(start), h)
    ensures Consistent(BT.Replay(Instance(board), New(start), h), start, h)
    decreases |h|
  {
    var p := Instance(board);
    if |h| > 0 {
      var front := h[..|h| - 1];
      var d := h[|h| - 1];
      BT.LegalPrefix(p, New(start), h, |h| - 1);
      ReplayConsistent(board, start, front);
      var j := BT.Replay(p, New(start), front);
      assert d in BT.Children(p, New(start), h[..|h| - 1]);
      assert h[..|h| - 1] == front;
      assert BT.Children(p, New(start), front) == p.extend(j, [], front);
      assert p.extend(j, [], front) == NextDecisions(board, j, []);
      PlayConsistent(board, j, start, front, d);
      FrontLast(h);
      calc {
        BT.Replay(p, New(start), h);
        p.whatIf(BT.Replay(p, New(start), h[..|h| - 1]), d);
        PlayMove(j, d);
      }
    } else {
      assert BT.Replay(p, New(start), h) == New(start);
      assert [start] + h == [start];
    }
  }

  /** The journey meets the engine's contract: `undo` reverts `play_move` along every legal history. */
  lemma UndoInverts(board: Board, start: Position)
    ensures BT.UndoInverts(Instance(board), New(start))
  {
    var p := Instance(board);
    forall h | 0 < |h| && BT.Legal(p, New(start), h)
      ensures p.undo(BT.Replay(p, New(start), h), h[|h| - 1], h[..|h| - 1]) == BT.Replay(p, New(start), h[..|h| - 1])
    {
      var front := h[..|h| - 1];
      var d := h[|h| - 1];
      BT.LegalPrefix(p, New(start), h, |h| - 1);
      ReplayConsistent(board, start, front);
      var j := BT.Replay(p, New(start), front);
      assert h[..|h| - 1] == front;
      assert d in NextDecisions(board, j, []);
      PlayUndo(j, d, front);
    }
  }

  /**
   * A solution found along a legal history is a journey over 64 distinct
   * squares from `start`, each reached from the previous through the board.
   */
  /** Decision `i` of a legal history is a board target of the square the knight stood on before it. */
  lemma LegalStepOnBoard(board: Board, start: Position, h: seq<Position>, i: nat)
    requires BT.Legal(Instance(board), New(start), h)
    requires i < |h|
    ensures h[i] in board(LastOr(h[..i], start))
  {
    var p := Instance(board);
    var front := h[..i];
    var j := BT.Replay(p, New(start), front);
    BT.LegalPrefix(p, New(start), h, i);
    BT.LegalAt(p, New(start), h, i);
    ReplayConsistent(board, start, front);
    assert BT.Children(p, New(start), front) == NextDecisions(board, j, []);
  }

  lemma SolutionIsJourney(board: Board, start: Position, h: seq<Position>)
    requires BT.Legal(Instance(board), New(start), h)
    requires IsSolution(BT.Replay(Instance(board), New(start), h), h).Some?
    ensures var s := IsSolution(BT.Replay(Instance(board), New(start), h), h).value;
      && |s.moves| == NumFields
      && s.moves[0] == start
      && Distinct(s.moves)
      && forall i | 0 < i < |s.moves| :: s.moves[i] in board(s.moves[i - 1])
  {
    var p := Instance(board);
    ReplayConsistent(board, start, h);
    var s := IsSolution(BT.Replay(p, New(start), h), h).value;
    forall i | 0 < i < |s.moves|
      ensures s.moves[i] in board(s.moves[i - 1])
    {
      LegalStepOnBoard(board, start, h, i - 1);
      LastOrPrefix(h, start, i - 1);
    }
  }
}
