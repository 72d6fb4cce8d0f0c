/**
 * The older search for knight's journeys: a depth-first search in which every
 * open candidate carries its own copy of the journey, so nothing is ever undone.
 */
module SnapshotSearch {
  import opened Options
  import opened Seqs
  import opened Positions
  import SJ = SnapshotJourney

  /** A pending node: its depth, the move leading to it and the journey after that move. */
  datatype Candidate = Candidate(count: nat, mov: Position, journey: SJ.Journey)

  /** The iterator state: the stack of open candidates. */
  datatype Solutions = Solutions(open: seq<Candidate>)

  /** Every journey on the stack is well formed and has visited exactly `count + 1` squares. */
  predicate CandidateOk(c: Candidate) {
    && SJ.WellFormed(c.journey)
    && c.journey.numVisited == c.count + 1
  }

  predicate WellFormed(e: Solutions) {
    forall i | 0 <= i < |e.open| :: CandidateOk(e.open[i])
  }

  /**
   * What the search promises about every open candidate: its journey starts
   * at `start`, ends at the candidate's move, and is a knight's path.
   */
  predicate FromStart(c: Candidate, start: Position)
    requires CandidateOk(c)
  {
    && c.journey.moves[0] == start
    && SJ.Current(c.journey) == c.mov
    && SJ.KnightPath(SJ.Visited(c.journey))
  }

  predicate Valid(e: Solutions, start: Position) {
    && WellFormed(e)
    && forall i | 0 <= i < |e.open| :: FromStart(e.open[i], start)
  }

  /** `Solutions::new`: a single candidate of count zero holding the fresh journey. */
  function New(start: Position): (e: Solutions)
    ensures e.open == [Candidate(0, start, SJ.New(start))]
    ensures Valid(e, start)
  {
    var e := Solutions([Candidate(0, start, SJ.New(start))]);
    assert SJ.Visited(SJ.New(start)) == [start];
    e
  }

  /** The children of a candidate: one copy of its journey per move, with that move played. */
  function Children(c: Candidate, moves: seq<Position>): (r: seq<Candidate>)
    requires CandidateOk(c) && c.journey.numVisited < NumFields
    ensures |r| == |moves|
    ensures forall i | 0 <= i < |moves| ::
      r[i] == Candidate(c.count + 1, moves[i], SJ.PlayMove(c.journey, moves[i]))
  {
    seq(|moves|, i requires 0 <= i < |moves| => Candidate(c.count + 1, moves[i], SJ.PlayMove(c.journey, moves[i])))
  }

  /** The result of one round of the `while let` loop in `next`. */
  datatype StepResult = Empty | Emit(solution: SJ.Journey, after: Solutions) | Expand(after: Solutions)

  /**
   * One round: pop the top candidate; a complete journey is returned as it is,
   * otherwise its children are pushed in the order `fill_possible_moves` lists them.
   */
  function Step(e: Solutions): (o: StepResult)
    requires WellFormed(e)
    ensures o.Empty? <==> |e.open| == 0
    ensures !o.Empty? ==> WellFormed(o.after)
    ensures o.Emit? ==>
      && o.solution == e.open[|e.open| - 1].journey
      && SJ.IsSolution(o.solution)
      && o.after.open == e.open[..|e.open| - 1]
    ensures o.Expand? ==>
      var c := e.open[|e.open| - 1];
      && !SJ.IsSolution(c.journey)
      && o.after.open == e.open[..|e.open| - 1] + Children(c, SJ.FillPossibleMoves(c.journey))
  {
    if |e.open| == 0 then Empty
    else
      var c := e.open[|e.open| - 1];
      var rest := e.open[..|e.open| - 1];
      if SJ.IsSolution(c.journey) then Emit(c.journey, Solutions(rest))
      else Expand(Solutions(rest + Children(c, SJ.FillPossibleMoves(c.journey))))
  }

  /** A child of a candidate from `start`, for a move `fill_possible_moves` offers, is again from `start`. */
  lemma ChildFromStart(c: Candidate, start: Position, next: Position)
    requires CandidateOk(c) && FromStart(c, start)
    requires c.journey.numVisited < NumFields
    requires next in SJ.FillPossibleMoves(c.journey)
    ensures CandidateOk(Candidate(c.count + 1, next, SJ.PlayMove(c.journey, next)))
    ensures FromStart(Candidate(c.count + 1, next, SJ.PlayMove(c.journey, next)), start)
  {
    var j' := SJ.PlayMove(c.journey, next);
    SJ.PlayPossibleMove(c.journey, next);
    assert j'.moves[0] == SJ.Visited(j')[0];
    assert SJ.Current(j') == SJ.Visited(j')[c.journey.numVisited];
  }

  /** Stacking two valid stacks gives a valid stack. */
  lemma ValidConcat(a: seq<Candidate>, b: seq<Candidate>, start: Position)
    requires Valid(Solutions(a), start) && Valid(Solutions(b), start)
    ensures Valid(Solutions(a + b), start)
  {
    var ab := a + b;
    forall i | 0 <= i < |ab|
      ensures CandidateOk(ab[i]) && FromStart(ab[i], start)
    {
      if i < |a| {
        assert ab[i] == a[i];
      } else {
        assert ab[i] == b[i - |a|];
      }
    }
  }

  /** Each round keeps every open journey a knight's path from `start`. */
  lemma StepValid(e: Solutions, start: Position)
    requires Valid(e, start)
    requires |e.open| > 0
    ensures Valid(Step(e).after, start)
  {
    var c := e.open[|e.open| - 1];
    var rest := e.open[..|e.open| - 1];
    assert Valid(Solutions(rest), start) by {
      assert forall i | 0 <= i < |rest| :: rest[i] == e.open[i];
    }
    if !SJ.IsSolution(c.journey) {
      var moves := SJ.FillPossibleMoves(c.journey);
      var kids := Children(c, moves);
      forall i | 0 <= i < |kids|
        ensures CandidateOk(kids[i]) && FromStart(kids[i], start)
      {
        ChildFromStart(c, start, moves[i]);
      }
      ValidConcat(rest, kids, start);
    }
  }

  /* ---------------------------------------------------------------------- */
  /* Termination                                                             */
  /* ---------------------------------------------------------------------- */

  function Pow(b: nat, n: nat): (r: nat)
    ensures b > 0 ==> r > 0
  {
    if n == 0 then 1 else b * Pow(b, n - 1)
  }

  /**
   * A candidate that has visited `v` squares weighs 9^(64 - v): more than its
   * at most eight children, which weigh 9^(63 - v) each.
   */
  function Weight(open: seq<Candidate>): nat {
    if |open| == 0 then 0
    else CandidateWeight(open[0]) + Weight(open[1..])
  }

  function CandidateWeight(c: Candidate): nat {
    if c.journey.numVisited <= NumFields then Pow(9, NumFields - c.journey.numVisited) else 0
  }

  lemma {:induction false} WeightConcat(a: seq<Candidate>, b: seq<Candidate>)
    ensures Weight(a + b) == Weight(a) + Weight(b)
    decreases |a|
  {
    if |a| > 0 {
      assert (a + b)[0] == a[0];
      assert (a + b)[1..] == a[1..] + b;
      WeightConcat(a[1..], b);
    } else {
      assert a + b == b;
    }
  }

  lemma {:induction false} WeightUniform(open: seq<Candidate>, v: nat)
    requires v <= NumFields
    requires forall i | 0 <= i < |open| :: open[i].journey.numVisited == v
    ensures Weight(open) == |open| * Pow(9, NumFields - v)
    decreases |open|
  {
    if |open| > 0 {
      WeightUniform(open[1..], v);
    }
  }

  /** Replacing an incomplete candidate by its children makes the stack strictly lighter. */
  lemma ExpandDecreasesWeight(rest: seq<Candidate>, c: Candidate, moves: seq<Position>)
    requires CandidateOk(c) && c.journey.numVisited < NumFields
    requires |moves| <= 8
    ensures Weight(rest + Children(c, moves)) < Weight(rest + [c])
  {
    var kids := Children(c, moves);
    var v := c.journey.numVisited;
    WeightConcat(rest, [c]);
    WeightConcat(rest, kids);
    WeightUniform(kids, v + 1);
    var w := Pow(9, NumFields - (v + 1));
    assert Weight([c]) == Pow(9, NumFields - v) + Weight([]);
    assert Pow(9, NumFields - v) == 9 * w;
    assert |kids| * w <= 8 * w by {
      MulMono(|kids|, 8, w);
    }
    assert w > 0;
    assert Weight(rest + kids) == Weight(rest) + |kids| * w;
    assert Weight(rest + [c]) == Weight(rest) + 9 * w;
    assert |kids| * w < 9 * w;
  }

  lemma MulMono(a: nat, b: nat, w: nat)
    requires a <= b
    ensures a * w <= b * w
  {
  }

  /* ---------------------------------------------------------------------- */
  /* Iterator::next                                                          */
  /* ---------------------------------------------------------------------- */

  /** The round from the well-formed stack `a` pushes children and leaves `b`. */
  predicate Expands(a: Solutions, b: Solutions) {
    WellFormed(a) && Step(a) == Expand(b)
  }

  /** The stacks of successive rounds that each pushed children. */
  predicate Expansions(t: seq<Solutions>) {
    Chain(Expands, t)
  }

  /** Along a sequence of expansions every open journey stays a knight's path from `start`. */
  lemma {:induction false} ExpansionsValid(t: seq<Solutions>, start: Position, k: nat)
    requires |t| > 0 && Expansions(t)
    requires Valid(t[0], start)
    requires k < |t|
    ensures Valid(t[k], start)
  {
    if k > 0 {
      ExpansionsValid(t, start, k - 1);
      assert Expands(t[k - 1], t[k]);
      StepValid(t[k - 1], start);
    }
  }

  /** A journey returned by a round of a valid search is a tour from `start`, and the rest stays valid. */
  lemma EmitValid(m: Solutions, start: Position)
    requires Valid(m, start)
    requires Step(m).Emit?
    ensures Valid(Step(m).after, start)
    ensures var j := Step(m).solution;
            && j.moves[0] == start
            && SJ.KnightPath(SJ.Visited(j))
            && CoversBoard(SJ.Visited(j))
  {
    StepValid(m, start);
    assert FromStart(m.open[|m.open| - 1], start);
    SolutionIsTour(Step(m).solution);
  }

  /**
   * `Iterator::next`: returns the first complete journey popped, or `None`
   * once the stack is empty. The search terminates: the stack's weight drops
   * in every round that does not return. The ghost `trace` holds the stacks
   * from `e` on between rounds that pushed children: the stack returned is
   * its last one after, for a journey, the round that returned it.
   */
  method Next(e: Solutions, ghost start: Position) returns (r: Option<SJ.Journey>, e': Solutions, ghost trace: seq<Solutions>)
    requires WellFormed(e)
    ensures WellFormed(e')
    ensures |trace| > 0 && trace[0] == e && Expansions(trace)
    ensures WellFormed(trace[|trace| - 1])
    ensures r.Some? ==> Step(trace[|trace| - 1]) == Emit(r.value, e')
    ensures r.None? ==> trace[|trace| - 1] == e' && |e'.open| == 0
    ensures |e.open| == 0 ==> r.None? && e' == e
    ensures r.Some? ==> SJ.IsSolution(r.value)
    ensures Valid(e, start) ==> Valid(e', start)
    ensures Valid(e, start) && r.Some? ==>
      && r.value.moves[0] == start
      && SJ.KnightPath(SJ.Visited(r.value))
      && CoversBoard(SJ.Visited(r.value))
  {
    e' := e;
    trace := [e];
    while true
      invariant WellFormed(e')
      invariant |trace| > 0 && trace[0] == e && Expansions(trace)
      invariant trace[|trace| - 1] == e'
      invariant |e.open| == 0 ==> e' == e
      decreases Weight(e'.open)
    {
      if |e'.open| == 0 {
        if Valid(e, start) {
          ExpansionsValid(trace, start, |trace| - 1);
        }
        return None, e', trace;
      }
      var o := Step(e');
      if o.Emit? {
        if Valid(e, start) {
          ExpansionsValid(trace, start, |trace| - 1);
          EmitValid(e', start);
        }
        return Some(o.solution), o.after, trace;
      }
      ghost var c := e'.open[|e'.open| - 1];
      FrontLast(e'.open);
      ExpandDecreasesWeight(e'.open[..|e'.open| - 1], c, SJ.FillPossibleMoves(c.journey));
      ChainSnoc(Expands, trace, o.after);
      trace := trace + [o.after];
      e' := o.after;
    }
  }

  /** Every square of the board occurs in `v`. */
  ghost predicate CoversBoard(v: seq<Position>) {
    forall q: Position :: q in v
  }

  /** A complete journey returned by the search visits all 64 squares, each exactly once. */
  lemma SolutionIsTour(j: SJ.Journey)
    requires SJ.WellFormed(j) && SJ.IsSolution(j)
    requires SJ.KnightPath(SJ.Visited(j))
    ensures |SJ.Visited(j)| == NumFields
    ensures CoversBoard(SJ.Visited(j))
  {
    var v := SJ.Visited(j);
    var indices := set i | 0 <= i < |v| :: v[i].index;
    assert forall i, k | 0 <= i < k < |v| :: v[i].index != v[k].index;
    CountDistinct(v);
    forall p: Position
      ensures p in v
    {
      AllIndices(indices, NumFields);
      assert p.index in indices;
    }
  }

  lemma CountDistinct(v: seq<Position>)
    requires Distinct(v)
    ensures |set i | 0 <= i < |v| :: v[i].index| == |v|
  {
    if |v| > 0 {
      var front := v[..|v| - 1];
      CountDistinct(front);
      var s := set i | 0 <= i < |front| :: front[i].index;
      assert (set i | 0 <= i < |v| :: v[i].index) == s + {v[|v| - 1].index};
      assert v[|v| - 1].index !in s;
    }
  }

  /** The integers `0..n`. */
  function Range(n: nat): (r: set<int>)
    ensures |r| == n
    ensures forall x :: x in r <==> 0 <= x < n
  {
    if n == 0 then {} else Range(n - 1) + {n - 1}
  }

  lemma {:induction false} SubsetSize<T>(a: set<T>, b: set<T>)
    requires a <= b
    ensures |a| <= |b|
    decreases |a|
  {
    if a != {} {
      var x :| x in a;
      SubsetSize(a - {x}, b - {x});
    }
  }

  /** A set of `n` integers from `0..n` holds all of them. */
  lemma AllIndices(s: set<int>, n: nat)
    requires |s| == n
    requires forall x | x in s :: 0 <= x < n
    ensures forall x | 0 <= x < n :: x in s
  {
    var all := Range(n);
    forall x | 0 <= x < n
      ensures x in s
    {
      if x !in s {
        assert s <= all - {x};
        SubsetSize(s, all - {x});
      }
    }
  }
}
