/**
 * The older knight's journey: the squares visited so far, in order, in a
 * 64-entry array of which only the first `numVisited` entries are meaningful.
 */
module SnapshotJourney {
  import opened Seqs
  import opened Positions

  /** The 64-entry move array. */
  type Moves = s: seq<Position> | |s| == NumFields witness seq(NumFields, _ => Position(0))

  datatype Journey = Journey(numVisited: int, moves: Moves)

  /** Every journey built by `new` and `play_move` has visited between 1 and 64 squares. */
  predicate WellFormed(j: Journey) {
    1 <= j.numVisited <= NumFields
  }

  /** The meaningful part of the move array. */
  function Visited(j: Journey): (r: seq<Position>)
    requires WellFormed(j)
    ensures |r| == j.numVisited
  {
    j.moves[..j.numVisited]
  }

  /** `Journey::new`: only the start square has been visited. */
  function New(start: Position): (j: Journey)
    ensures WellFormed(j)
    ensures Visited(j) == [start]
  {
    Journey(1, seq(NumFields, _ => start))
  }

  /**
   * `Journey::play_move`: writes the square into the next free slot; the
   * array index panics once all 64 slots are used.
   */
  function PlayMove(j: Journey, next: Position): (r: Journey)
    requires WellFormed(j)
    requires j.numVisited < NumFields
    ensures WellFormed(r)
    ensures Visited(r) == Visited(j) + [next]
  {
    Journey(j.numVisited + 1, j.moves[j.numVisited := next])
  }

  /** `Journey::is_solution`: all 64 squares have been visited, so every slot of the move array is meaningful. */
  function IsSolution(j: Journey): (r: bool)
    ensures r <==> WellFormed(j) && Visited(j) == j.moves
  {
    j.numVisited == NumFields
  }

  /** The square the knight stands on. */
  function Current(j: Journey): Position
    requires WellFormed(j)
  {
    j.moves[j.numVisited - 1]
  }

  /**
   * `Journey::fill_possible_moves`: the knight's targets from the current
   * square that are not among the visited ones, in `MOVES` order.
   */
  function FillPossibleMoves(j: Journey): (r: seq<Position>)
    requires WellFormed(j)
    ensures |r| <= 8
    ensures forall i | 0 <= i < |r| :: KnightMove(Current(j), r[i]) && r[i] !in Visited(j)
    ensures forall q :: KnightMove(Current(j), q) && q !in Visited(j) ==> q in r
    ensures Distinct(r)
  {
    var targets := ReachableFields(Current(j), []);
    var visited := Visited(j);
    var r := Retain(targets, q => q !in visited);
    forall q | KnightMove(Current(j), q) && q !in visited
      ensures q in r
    {
      ReachableFieldsComplete(Current(j), [], q);
      var i :| 0 <= i < |targets| && targets[i] == q;
    }
    r
  }

  /** The visited squares form a knight's path: pairwise distinct, each a jump from the previous. */
  predicate KnightPath(s: seq<Position>) {
    && Distinct(s)
    && forall i | 0 < i < |s| :: KnightMove(s[i - 1], s[i])
  }

  /** A knight's path extended by an unvisited square one jump from its end is again a knight's path. */
  lemma KnightPathSnoc(v: seq<Position>, next: Position)
    requires KnightPath(v) && |v| > 0
    requires next !in v && KnightMove(v[|v| - 1], next)
    ensures KnightPath(v + [next])
  {
    var v' := v + [next];
    DistinctSnoc(v, next);
    forall i | 0 < i < |v'|
      ensures KnightMove(v'[i - 1], v'[i])
    {
      if i < |v| {
        assert v'[i - 1] == v[i - 1] && v'[i] == v[i];
      } else {
        assert v'[i - 1] == v[|v| - 1] && v'[i] == next;
      }
    }
  }

  /** A move offered by `fill_possible_moves` is an unvisited square a knight's jump away. */
  lemma OfferedMove(j: Journey, next: Position)
    requires WellFormed(j)
    requires next in FillPossibleMoves(j)
    ensures next !in Visited(j) && KnightMove(Current(j), next)
  {
  }

  /** Jumping to an unvisited square a knight's jump away keeps the visited squares a knight's path. */
  lemma PlayKnightMove(j: Journey, next: Position)
    requires WellFormed(j) && j.numVisited < NumFields
    requires KnightPath(Visited(j))
    requires next !in Visited(j) && KnightMove(Current(j), next)
    ensures KnightPath(Visited(PlayMove(j, next)))
  {
    var v := Visited(j);
    assert Current(j) == v[|v| - 1];
    KnightPathSnoc(v, next);
  }

  /** Playing only moves offered by `fill_possible_moves` keeps the visited squares a knight's path. */
  lemma PlayPossibleMove(j: Journey, next: Position)
    requires WellFormed(j) && j.numVisited < NumFields
    requires KnightPath(Visited(j))
    requires next in FillPossibleMoves(j)
    ensures KnightPath(Visited(PlayMove(j, next)))
  {
    OfferedMove(j, next);
    PlayKnightMove(j, next);
  }

  /** A fresh journey from the corner A1 offers (2, 1) and then (1, 2). */
  lemma FillFromCorner()
    ensures FillPossibleMoves(New(Positions.New(0, 0))) == [Positions.New(2, 1), Positions.New(1, 2)]
  {
    var j := New(Positions.New(0, 0));
    ReachableFromCorner([]);
    assert Current(j) == Positions.New(0, 0);
  }

  /** `Display`: the first square, then every further visited square preceded by a space. */
  function Show(j: Journey): (s: string)
    requires WellFormed(j)
    ensures |s| == 3 * j.numVisited - 1
    ensures forall i | 0 <= i < j.numVisited :: s[3 * i..3 * i + 2] == Positions.Show(j.moves[i])
    ensures forall i | 0 < i < j.numVisited :: s[3 * i - 1] == ' '
  {
    var v := Visited(j);
    assert forall i | 0 <= i < |v| :: v[i] == j.moves[i];
    ShowSpaced(v)
  }
}
