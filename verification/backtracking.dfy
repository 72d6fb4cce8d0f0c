/**
 * The generic backtracking engine: the `Problem` contract and the lazy
 * `Solutions` iterator that walks the decision tree depth first while keeping
 * one live problem state, reconciled by `undo` before every decision.
 */
module Backtracking {
  import opened Options
  import opened Seqs

  /**
   * The four operations of a problem, over states `S`, decisions `D` and
   * solutions `R`.
   *  - `extend(state, buffer, history)` is the buffer after the problem has
   *    appended the decisions to consider next;
   *  - `undo(state, last, history)` reverts `last`, given the history without it;
   *  - `whatIf(state, decision)` applies a decision;
   *  - `isSolution(state, history)` extracts a solution, if the state is one.
   */
  datatype Problem<!S, !D, R> = Problem(
    extend: (S, seq<D>, seq<D>) -> seq<D>,
    undo: (S, D, seq<D>) -> S,
    whatIf: (S, D) -> S,
    isSolution: (S, seq<D>) -> Option<R>)

  /** A pending decision, tagged with the number of decisions (itself included) leading to it. */
  datatype Candidate<D> = Candidate(count: int, possibility: D)

  /** The iterator: the stack of open candidates, the decisions taken so far, and the live state. */
  datatype Solutions<S, D> = Solutions(open: seq<Candidate<D>>, history: seq<D>, current: S)

  /** What one call of `next` produces. `OutOfFuel` only reports that the step bound ran out. */
  datatype NextResult<R> = Found(solution: R) | Exhausted | OutOfFuel

  /** Every decision of `ds`, tagged with `count`, in the same order. */
  function Tagged<D>(count: int, ds: seq<D>): (r: seq<Candidate<D>>)
    ensures |r| == |ds|
    ensures forall i | 0 <= i < |ds| :: r[i] == Candidate(count, ds[i])
  {
    seq(|ds|, i requires 0 <= i < |ds| => Candidate(count, ds[i]))
  }

  /* ---------------------------------------------------------------------- */
  /* Reference semantics: the state reached by replaying a history           */
  /* ---------------------------------------------------------------------- */

  /** The state obtained from `init` by applying every decision of `h` in order. */
  function Replay<S, D, R>(p: Problem<S, D, R>, init: S, h: seq<D>): S
    decreases |h|
  {
    if |h| == 0 then init else p.whatIf(Replay(p, init, h[..|h| - 1]), h[|h| - 1])
  }

  /** The decisions the problem offers after the decisions `path`, asked with an empty buffer. */
  function Children<S, D, R>(p: Problem<S, D, R>, init: S, path: seq<D>): seq<D> {
    p.extend(Replay(p, init, path), [], path)
  }

  /** Every decision of `h` was offered by the problem in the state its prefix leads to. */
  ghost predicate Legal<S, D, R>(p: Problem<S, D, R>, init: S, h: seq<D>)
    decreases |h|
  {
    |h| == 0 || (Legal(p, init, h[..|h| - 1]) && h[|h| - 1] in Children(p, init, h[..|h| - 1]))
  }

  /**
   * The contract the trait puts on `undo`: along every legal history, undoing
   * the last decision (given the rest of the history) gives back the state
   * before it.
   */
  ghost predicate UndoInverts<S, D(!new), R>(p: Problem<S, D, R>, init: S) {
    forall h {:trigger Legal(p, init, h)} | 0 < |h| && Legal(p, init, h) ::
      p.undo(Replay(p, init, h), h[|h| - 1], h[..|h| - 1]) == Replay(p, init, h[..|h| - 1])
  }

  lemma {:induction false} LegalPrefix<S, D, R>(p: Problem<S, D, R>, init: S, h: seq<D>, n: nat)
    requires Legal(p, init, h)
    requires n <= |h|
    ensures Legal(p, init, h[..n])
    decreases |h|
  {
    if n < |h| {
      LegalPrefix(p, init, h[..|h| - 1], n);
      assert h[..|h| - 1][..n] == h[..n];
    } else {
      assert h[..n] == h;
    }
  }

  /** Each decision of a legal history was offered after the decisions before it. */
  lemma LegalAt<S, D, R>(p: Problem<S, D, R>, init: S, h: seq<D>, i: nat)
    requires Legal(p, init, h)
    requires i < |h|
    ensures h[i] in Children(p, init, h[..i])
  {
    LegalPrefix(p, init, h, i + 1);
    assert h[..i + 1][..i] == h[..i];
  }

  lemma LegalExtend<S, D, R>(p: Problem<S, D, R>, init: S, h: seq<D>, d: D)
    requires Legal(p, init, h)
    requires d in Children(p, init, h)
    ensures Legal(p, init, h + [d])
  {
    assert (h + [d])[..|h|] == h;
  }

  /* ---------------------------------------------------------------------- */
  /* Invariants of the iterator                                              */
  /* ---------------------------------------------------------------------- */

  /** The top of the stack, the candidate `pop` returns. */
  function Top<S, D>(e: Solutions<S, D>): Candidate<D>
    requires |e.open| > 0
  {
    e.open[|e.open| - 1]
  }

  /**
   * The stack invariant: every count is at least one, counts never decrease
   * from bottom to top, and the top count is at most one more than the
   * length of the history.
   */
  predicate WellFormed<S, D>(e: Solutions<S, D>) {
    && (forall i | 0 <= i < |e.open| :: 1 <= e.open[i].count)
    && (forall i, j | 0 <= i <= j < |e.open| :: e.open[i].count <= e.open[j].count)
    && (|e.open| > 0 ==> Top(e).count <= |e.history| + 1)
  }

  /**
   * The full invariant: the stack invariant, the history is a legal decision
   * path, the live state is the one that path leads to, and every candidate
   * was offered in the state reached by the first `count - 1` decisions of the
   * current history (its parent).
   */
  ghost predicate Valid<S, D, R>(p: Problem<S, D, R>, init: S, e: Solutions<S, D>) {
    && WellFormed(e)
    && Legal(p, init, e.history)
    && e.current == Replay(p, init, e.history)
    && ChildrenOfPrefixes(p, init, e.open, e.history)
  }

  /* ---------------------------------------------------------------------- */
  /* Solutions::new                                                          */
  /* ---------------------------------------------------------------------- */

  /** `Solutions::new`: one candidate of count one per decision offered by `init`, in order. */
  function New<S, D, R>(p: Problem<S, D, R>, init: S): (e: Solutions<S, D>)
    ensures e.history == [] && e.current == init
    ensures |e.open| == |p.extend(init, [], [])|
    ensures forall i | 0 <= i < |e.open| :: e.open[i] == Candidate(1, p.extend(init, [], [])[i])
    ensures WellFormed(e)
  {
    Solutions(Tagged(1, p.extend(init, [], [])), [], init)
  }

  /** A freshly constructed iterator satisfies the full invariant. */
  lemma NewValid<S, D, R>(p: Problem<S, D, R>, init: S)
    ensures Valid(p, init, New(p, init))
  {
    var e := New(p, init);
    assert Replay(p, init, []) == init;
    forall i | 0 <= i < |e.open|
      ensures e.open[i].possibility in Children(p, init, e.history[..e.open[i].count - 1])
    {
      assert e.history[..0] == [];
    }
  }

  /* ---------------------------------------------------------------------- */
  /* Reconciliation                                                          */
  /* ---------------------------------------------------------------------- */

  /**
   * Undo the last `k` decisions: each round pops the last decision off the
   * history and hands it, with the remaining history, to `undo`.
   * The result is the shortened history and the state after the undos.
   */
  function Unroll<S, D, R>(p: Problem<S, D, R>, h: seq<D>, s: S, k: nat): (r: (seq<D>, S))
    requires k <= |h|
    ensures r.0 == h[..|h| - k]
    decreases k
  {
    if k == 0 then (h, s)
    else
      var rest := h[..|h| - 1];
      Unroll(p, rest, p.undo(s, h[|h| - 1], rest), k - 1)
  }

  /** Along a legal history, `k` undos lead to the state of the history's prefix. */
  lemma {:induction false} UnrollReplays<S, D(!new), R>(p: Problem<S, D, R>, init: S, h: seq<D>, s: S, k: nat)
    requires UndoInverts(p, init)
    requires Legal(p, init, h)
    requires s == Replay(p, init, h)
    requires k <= |h|
    ensures Unroll(p, h, s, k).1 == Replay(p, init, h[..|h| - k])
    decreases k
  {
    if k > 0 {
      var rest := h[..|h| - 1];
      LegalPrefix(p, init, h, |h| - 1);
      UnrollReplays(p, init, rest, p.undo(s, h[|h| - 1], rest), k - 1);
      assert rest[..|rest| - (k - 1)] == h[..|h| - k];
    }
  }

  /**
   * The loop at the top of `next`: pop the top candidate and undo
   * `|history| - count + 1` decisions. The result holds the remaining stack,
   * the history cut back to the candidate's parent (`count - 1` decisions)
   * and the state after the undos.
   */
  function Reconcile<S, D, R>(p: Problem<S, D, R>, e: Solutions<S, D>): (r: Solutions<S, D>)
    requires WellFormed(e)
    requires |e.open| > 0
    ensures r.open == e.open[..|e.open| - 1]
    ensures |r.history| == Top(e).count - 1
    ensures r.history == e.history[..Top(e).count - 1]
  {
    var c := Top(e);
    var k := |e.history| - c.count + 1;
    var (h, s) := Unroll(p, e.history, e.current, k);
    Solutions(e.open[..|e.open| - 1], h, s)
  }

  /**
   * Reconciliation is correct: after it, the history is the popped
   * candidate's parent path, the live state is the state of that path, and
   * the candidate is one of the decisions that state offers.
   */
  lemma ReconcileReachesParent<S, D(!new), R>(p: Problem<S, D, R>, init: S, e: Solutions<S, D>)
    requires UndoInverts(p, init)
    requires Valid(p, init, e)
    requires |e.open| > 0
    ensures Legal(p, init, Reconcile(p, e).history)
    ensures Reconcile(p, e).current == Replay(p, init, Reconcile(p, e).history)
    ensures Top(e).possibility in Children(p, init, Reconcile(p, e).history)
  {
    var c := Top(e);
    var k := |e.history| - c.count + 1;
    UnrollReplays(p, init, e.history, e.current, k);
    LegalPrefix(p, init, e.history, c.count - 1);
  }

  /* ---------------------------------------------------------------------- */
  /* One round of the search loop                                            */
  /* ---------------------------------------------------------------------- */

  /** The result of one round of the `while let` loop in `next`. */
  datatype StepResult<S, D, R> =
    | Empty
    | Emit(solution: R, after: Solutions<S, D>)
    | Expand(after: Solutions<S, D>)

  /**
   * One round of the loop: pop and reconcile, apply the decision and push it
   * on the history, then either emit a solution or push the children, tagged
   * `count + 1`, in the order the problem offers them.
   */
  function Step<S, D, R>(p: Problem<S, D, R>, e: Solutions<S, D>): (o: StepResult<S, D, R>)
    requires WellFormed(e)
    ensures o.Empty? <==> |e.open| == 0
    ensures !o.Empty? ==> WellFormed(o.after)
    ensures !o.Empty? ==> |o.after.history| == Top(e).count
    ensures !o.Empty? ==> o.after.history == e.history[..Top(e).count - 1] + [Top(e).possibility]
    ensures o.Emit? ==>
      && o.after.open == e.open[..|e.open| - 1]
      && p.isSolution(o.after.current, o.after.history) == Some(o.solution)
    ensures o.Expand? ==>
      && p.isSolution(o.after.current, o.after.history).None?
      && o.after.open == e.open[..|e.open| - 1]
                         + Tagged(Top(e).count + 1, p.extend(o.after.current, [], o.after.history))
  {
    if |e.open| == 0 then Empty
    else
      var c := Top(e);
      var r := Reconcile(p, e);
      var s := p.whatIf(r.current, c.possibility);
      var h := r.history + [c.possibility];
      match p.isSolution(s, h)
      case Some(sol) => Emit(sol, Solutions(r.open, h, s))
      case None =>
        Expand(Solutions(r.open + Tagged(c.count + 1, p.extend(s, [], h)), h, s))
  }

  /** Candidates whose parents lie within a common prefix of two histories stay children of it. */
  ghost predicate ChildrenOfPrefixes<S, D, R>(p: Problem<S, D, R>, init: S, open: seq<Candidate<D>>, h: seq<D>) {
    forall i | 0 <= i < |open| ::
      && 1 <= open[i].count <= |h| + 1
      && open[i].possibility in Children(p, init, h[..open[i].count - 1])
  }

  lemma ChildrenOfCommonPrefix<S, D, R>(p: Problem<S, D, R>, init: S, open: seq<Candidate<D>>, h: seq<D>, h': seq<D>, m: nat)
    requires ChildrenOfPrefixes(p, init, open, h)
    requires forall i | 0 <= i < |open| :: open[i].count <= m
    requires m - 1 <= |h| && m - 1 <= |h'|
    requires 1 <= m ==> h[..m - 1] == h'[..m - 1]
    ensures ChildrenOfPrefixes(p, init, open, h')
  {
    forall i | 0 <= i < |open|
      ensures open[i].possibility in Children(p, init, h'[..open[i].count - 1])
    {
      var n := open[i].count - 1;
      assert h[..n] == h[..m - 1][..n] == h'[..m - 1][..n] == h'[..n];
    }
  }

  /** After a round the history is legal and the live state is the one it leads to. */
  lemma StepState<S, D(!new), R>(p: Problem<S, D, R>, init: S, e: Solutions<S, D>)
    requires UndoInverts(p, init)
    requires Valid(p, init, e)
    requires |e.open| > 0
    ensures Legal(p, init, Step(p, e).after.history)
    ensures Step(p, e).after.current == Replay(p, init, Step(p, e).after.history)
  {
    var c := Top(e);
    var r := Reconcile(p, e);
    ReconcileReachesParent(p, init, e);
    var h := r.history + [c.possibility];
    LegalExtend(p, init, r.history, c.possibility);
    assert h[..|h| - 1] == r.history;
    assert Step(p, e).after.history == h;
  }

  /** After a round the candidates left below the popped one are still children of prefixes of the history. */
  lemma StepRest<S, D, R>(p: Problem<S, D, R>, init: S, e: Solutions<S, D>)
    requires Valid(p, init, e)
    requires |e.open| > 0
    ensures ChildrenOfPrefixes(p, init, e.open[..|e.open| - 1], Step(p, e).after.history)
  {
    var c := Top(e);
    var rest := e.open[..|e.open| - 1];
    assert ChildrenOfPrefixes(p, init, rest, e.history) by {
      assert forall i | 0 <= i < |rest| :: rest[i] == e.open[i];
    }
    ChildrenOfCommonPrefix(p, init, rest, e.history, Step(p, e).after.history, c.count);
  }

  /** Each round keeps the full invariant. */
  lemma StepValid<S, D(!new), R>(p: Problem<S, D, R>, init: S, e: Solutions<S, D>)
    requires UndoInverts(p, init)
    requires Valid(p, init, e)
    requires |e.open| > 0
    ensures Valid(p, init, Step(p, e).after)
  {
    StepState(p, init, e);
    StepRest(p, init, e);
    var a := Step(p, e).after;
    var rest := e.open[..|e.open| - 1];
    if Step(p, e).Expand? {
      var h := a.history;
      var kids := Tagged(Top(e).count + 1, p.extend(a.current, [], h));
      assert a.open == rest + kids;
      assert p.extend(a.current, [], h) == Children(p, init, h);
      TaggedChildren(p, init, h);
      ChildrenOfConcat(p, init, rest, kids, h);
    }
  }

  lemma TaggedChildren<S, D, R>(p: Problem<S, D, R>, init: S, h: seq<D>)
    ensures ChildrenOfPrefixes(p, init, Tagged(|h| + 1, Children(p, init, h)), h)
  {
    assert h[..|h|] == h;
  }

  lemma ChildrenOfConcat<S, D, R>(p: Problem<S, D, R>, init: S, a: seq<Candidate<D>>, b: seq<Candidate<D>>, h: seq<D>)
    requires ChildrenOfPrefixes(p, init, a, h)
    requires ChildrenOfPrefixes(p, init, b, h)
    ensures ChildrenOfPrefixes(p, init, a + b, h)
  {
    forall i | 0 <= i < |a + b|
      ensures (a + b)[i] == if i < |a| then a[i] else b[i - |a|]
    {
    }
  }

  /**
   * Every candidate keeps the parent it was pushed from. After a round, a
   * candidate left on the stack sees the same first `count - 1` decisions as
   * before the round, and a child pushed by the round has the round's whole
   * history, of length `count - 1`, as its parent. So when a candidate is
   * popped, `Reconcile` cuts the history back to exactly the history at the
   * moment it was pushed.
   */
  lemma StepKeepsParents<S, D, R>(p: Problem<S, D, R>, e: Solutions<S, D>)
    requires WellFormed(e)
    requires |e.open| > 0
    ensures var a := Step(p, e).after;
            forall i | 0 <= i < |e.open| - 1 ::
              && e.open[i].count - 1 <= |a.history|
              && e.open[i].count - 1 <= |e.history|
              && a.history[..e.open[i].count - 1] == e.history[..e.open[i].count - 1]
    ensures var a := Step(p, e).after;
            forall i | |e.open| - 1 <= i < |a.open| :: a.open[i].count - 1 == |a.history|
  {
  }

  /** The last decision the problem offers is on top of the stack after an expansion. */
  lemma LastChildOnTop<S, D, R>(p: Problem<S, D, R>, e: Solutions<S, D>)
    requires WellFormed(e)
    requires Step(p, e).Expand?
    requires |p.extend(Step(p, e).after.current, [], Step(p, e).after.history)| > 0
    ensures var a := Step(p, e).after;
            var ds := p.extend(a.current, [], a.history);
            Top(a) == Candidate(Top(e).count + 1, ds[|ds| - 1])
  {
  }

  /* ---------------------------------------------------------------------- */
  /* Iterator::next                                                          */
  /* ---------------------------------------------------------------------- */

  /** The round from the well-formed iterator `a` pushes children and leaves `b`. */
  ghost predicate Expands<S, D, R>(p: Problem<S, D, R>, a: Solutions<S, D>, b: Solutions<S, D>) {
    WellFormed(a) && Step(p, a) == Expand(b)
  }

  ghost function ExpandsOf<S, D, R>(p: Problem<S, D, R>): (Solutions<S, D>, Solutions<S, D>) -> bool {
    (a: Solutions<S, D>, b: Solutions<S, D>) => Expands(p, a, b)
  }

  /** The iterators between successive rounds that each pushed children. */
  ghost predicate Expansions<S, D, R>(p: Problem<S, D, R>, t: seq<Solutions<S, D>>) {
    Chain(ExpandsOf(p), t)
  }

  /** Along a sequence of expansions every round keeps the full invariant. */
  lemma {:induction false} ExpansionsValid<S, D(!new), R>(p: Problem<S, D, R>, init: S, t: seq<Solutions<S, D>>, k: nat)
    requires UndoInverts(p, init)
    requires |t| > 0 && Expansions(p, t)
    requires Valid(p, init, t[0])
    requires k < |t|
    ensures Valid(p, init, t[k])
  {
    if k > 0 {
      ExpansionsValid(p, init, t, k - 1);
      assert ExpandsOf(p)(t[k - 1], t[k]);
      StepValid(p, init, t[k - 1]);
    }
  }

  /**
   * `Iterator::next`: run rounds until one emits a solution or the stack is
   * empty. `fuel` bounds the number of rounds (the Rust loop has no bound).
   * The ghost `trace` holds the iterators from `e` on between rounds that
   * pushed children: the iterator returned is its last one after, for a
   * solution, the round that emitted it.
   */
  method Next<S, D(!new), R>(p: Problem<S, D, R>, ghost init: S, e: Solutions<S, D>, fuel: nat)
    returns (r: NextResult<R>, e': Solutions<S, D>, ghost trace: seq<Solutions<S, D>>)
    requires WellFormed(e)
    ensures WellFormed(e')
    ensures |trace| > 0 && trace[0] == e && Expansions(p, trace)
    ensures |trace| - 1 <= fuel && WellFormed(trace[|trace| - 1])
    ensures r.Found? ==> Step(p, trace[|trace| - 1]) == Emit(r.solution, e')
    ensures !r.Found? ==> trace[|trace| - 1] == e'
    ensures r.Exhausted? <==> |e'.open| == 0 && !r.Found?
    ensures r.OutOfFuel? ==> |trace| - 1 == fuel
    ensures |e.open| == 0 ==> r.Exhausted? && e' == e
    ensures r.Found? ==> p.isSolution(e'.current, e'.history) == Some(r.solution)
    ensures UndoInverts(p, init) && Valid(p, init, e) ==> Valid(p, init, e')
  {
    e' := e;
    trace := [e];
    var remaining := fuel;
    while true
      invariant WellFormed(e')
      invariant |trace| > 0 && trace[0] == e && Expansions(p, trace)
      invariant |trace| - 1 + remaining == fuel && trace[|trace| - 1] == e'
      invariant |e.open| == 0 ==> e' == e
      decreases remaining
    {
      if |e'.open| == 0 {
        if UndoInverts(p, init) && Valid(p, init, e) {
          ExpansionsValid(p, init, trace, |trace| - 1);
        }
        return Exhausted, e', trace;
      }
      if remaining == 0 {
        if UndoInverts(p, init) && Valid(p, init, e) {
          ExpansionsValid(p, init, trace, |trace| - 1);
        }
        return OutOfFuel, e', trace;
      }
      var o := Step(p, e');
      if o.Emit? {
        if UndoInverts(p, init) && Valid(p, init, e) {
          ExpansionsValid(p, init, trace, |trace| - 1);
          StepValid(p, init, e');
        }
        return Found(o.solution), o.after, trace;
      }
      ChainSnoc(ExpandsOf(p), trace, o.after);
      trace := trace + [o.after];
      e' := o.after;
      remaining := remaining - 1;
    }
  }
}
