# backtracking — a Dafny model

This project models the core of the Rust crate `backtracking`, a small library for
depth-first backtracking search, and proves properties of the model.

- **The engine** (`backtracking.dfy`, from `src/lib.rs`). A problem offers decisions, applies
  one (`what_if`), reverts the last one (`undo`) and recognises solutions (`is_solution`).
  The lazy `Solutions` iterator keeps one live problem state, the history of decisions that
  led to it, and a LIFO stack of candidates. Each candidate is tagged with its depth
  (`count`). Before a popped candidate is applied, the iterator undoes
  `|history| - count + 1` decisions. The model proves:
  - that this count lies in `0..=|history|`;
  - that after the undos the live state is the candidate's parent state, provided `undo`
    inverts `what_if`;
  - that every round preserves the stack invariant.
  The problem is a datatype of four functions. `Replay` gives the reference meaning: the state
  a history leads to.
- **Sudoku** (`sudoku.dfy`, from `examples/sudoku.rs`):
  - row, column and 3x3-block filtering, including the block-offset arithmetic;
  - decisions for the first empty cell, `decide`/`undo`, `is_solution` and the printer;
  - the unit tests, stated as lemmas.
- **N-Queens** (`n_queens.dfy`, from `examples/n_queens.rs`):
  - the conflict predicate and row-by-row placement;
  - the `Display` output, a sort by row followed by one line per queen;
  - the fact that every solution the engine can produce is a valid placement.
- **Knight's journey, newer version** (`knights_journey.dfy`, from
  `examples/knights_journey/journey.rs`): visited flags, the knight's square and the start
  square, with a `play_move`/`undo` round trip. The board's move generator is a parameter.
- **Knight moves** (`positions.dfy`, from `src/position.rs`): the square index encoding,
  `reachable_fields` over the `MOVES` table, and `Display`.
- **Knight's journey, older snapshot** (`snapshot_journey.dfy` and `snapshot_search.dfy`, from
  `src/journey.rs` and `src/backtracking.rs`): a move array with a visited count, and a search
  in which every stack entry carries its own copy of the journey. This search is proved to
  terminate.
- `options.dfy` and `seqs.dfy` hold a generic `Option` type and small sequence lemmas.

The Rust snapshots use different names for the trait's operations. The model maps
`extend_possibilities`/`next_decisions`/`fill_possible_moves` to `extend`, and
`what_if`/`decide`/`play_move` to `whatIf`.

## Model

| member | source | states |
|---|---|---|
| Backtracking.New | src/lib.rs:52-67 | The stack holds one candidate of count 1 per decision the initial state offers, in enumeration order. The history is empty, the live state is the initial one, and the stack invariant holds. |
| Backtracking.NewValid | src/lib.rs:52-67 | A fresh iterator satisfies the full invariant: legal empty history, live state equals its replay, every candidate offered by its parent. |
| Backtracking.Unroll | src/lib.rs:83-86 | Undoing `k` decisions pops exactly the last `k` entries of the history. The arguments handed to `undo` (each popped entry with the history that remains) are pinned by `Backtracking.UnrollReplays`, not by this contract. |
| Backtracking.UnrollReplays | src/lib.rs:28-30 | If `undo` inverts `what_if` along legal histories, the state after `k` undos is the state the shortened history leads to. |
| Backtracking.Reconcile | src/lib.rs:75-86 | Under the stack invariant, the undo count (history length minus `count`, plus one) is a natural number no larger than the history length, so `pop().unwrap()` cannot fail. Afterwards the history is exactly its first `count - 1` decisions. |
| Backtracking.ReconcileReachesParent | src/lib.rs:80-90 | After reconciliation the history is legal and the live state is the state it leads to. The popped decision is one of the decisions that state offers. |
| Backtracking.Step | src/lib.rs:75-105 | One round: the history becomes the parent's history plus the decision, so its length equals `count`. A solution is emitted with the rest of the stack left as it was. Otherwise the children of the new state are pushed with `count + 1` in enumeration order. The stack invariant is kept. |
| Backtracking.StepValid | src/lib.rs:75-105 | Each round keeps the full invariant (stack shape, legal history, live state equals replay, every candidate a child of its parent prefix), provided `undo` inverts `what_if`. |
| Backtracking.StepKeepsParents | src/lib.rs:74-104 | A round leaves the first `count - 1` decisions seen by every candidate below the popped one unchanged, and every child it pushes has `count - 1` equal to the length of the new history. So when a candidate is popped, reconciliation cuts the history back to exactly the history at the moment it was pushed, and `what_if` is applied in that state. |
| Backtracking.ExpansionsValid | src/lib.rs:75-105 | Along any sequence of rounds that each pushed children, every iterator satisfies the full invariant when the first one does and `undo` inverts `what_if`. |
| Backtracking.LastChildOnTop | src/lib.rs:101-105 | After an expansion, the last-enumerated child is on top of the stack and so is popped first. |
| Backtracking.Next | src/lib.rs:74-108 | The ghost trace starts at the given iterator, and each of its iterators is reached from the previous one by a round that pushed children. Within the fuel bound, `next` returns `None` exactly when the last of them has an empty stack, and then returns that iterator. A solution is returned exactly when the round from the last of them emits it, and the iterator returned is the one after that round. Once exhausted, `next` returns `None` again without change. The full invariant is preserved. |
| Seqs.Retain | src/journey.rs:39 | `Vec::retain` keeps every element satisfying the predicate, as many times as it occurs, drops every other one, and never adds a duplicate. |
| Positions.New | src/position.rs:9-11 | `Position::new(row, column)` has that row and that column. |
| Positions.AsIndex | src/position.rs:13-15 | The index lies in `0..64` and equals `8 * row + column`. |
| Positions.Row | src/position.rs:41-43 | The row of every square lies in `0..8`. |
| Positions.Column | src/position.rs:45-47 | The column lies in `0..8` and is what remains of the index after eight squares per row are taken off. |
| Positions.NewRowColumn | src/position.rs:41-47 | Every square's row and column lie in `0..8`, and rebuilding from them gives back the square. |
| Positions.TargetsFrom | src/position.rs:32-37 | Every target kept for the table entries from `k` on differs from the square by one of those entries, and no target repeats. |
| Positions.ReachableFields | src/position.rs:18-39 | The result has at most 8 squares, pairwise distinct, each a knight's jump (row and column distance 1 and 2, or 2 and 1) from the square. |
| Positions.ReachableFieldsIgnoresBuffer | src/position.rs:18-31 | The buffer is cleared first, so its old contents do not change the result. |
| Positions.TableMoveIsKnightMove | src/position.rs:20-29 | Every entry of the `MOVES` table is a knight's jump in the reference sense. |
| Positions.ReachableFieldsComplete | src/position.rs:20-37 | Every on-board square a knight's jump away is listed. This is the converse of `ReachableFields`' contract. |
| Positions.ReachableFromCorner | src/position.rs:18-38 | From A1 the result is exactly `[(2, 1), (1, 2)]`, in this order. |
| Positions.Show | src/position.rs:50-56 | A square prints as two characters: the letter `A` plus the row, then the digit `1` plus the column. So the letters range over `A`..`H` and the digits over `1`..`8`. |
| Positions.ShowInjective | src/position.rs:50-56 | Different squares print differently. |
| Positions.ShowCorner | src/position.rs:62-65 | Square (0, 0) prints as `A1`. |
| SnapshotJourney.New | src/journey.rs:20-25 | A new journey has visited exactly the start square. |
| SnapshotJourney.PlayMove | src/journey.rs:27-30 | Playing a move appends it to the visited squares and leaves the earlier ones unchanged. The precondition `num_visited < 64` is the array bound. |
| SnapshotJourney.FillPossibleMoves | src/journey.rs:36-40 | Exactly the knight's jumps from the current square that are not yet visited, without duplicates, at most 8. |
| SnapshotJourney.PlayPossibleMove | src/journey.rs:27-40 | Playing only offered moves keeps the visited squares a knight's path: pairwise distinct, each one jump from the previous. |
| SnapshotJourney.IsSolution | src/journey.rs:32-34 | A journey is complete exactly when it is well formed and every slot of the 64-entry move array is a visited square. |
| SnapshotJourney.FillFromCorner | src/main.rs:26-35 | A fresh journey from A1 offers exactly `(2, 1)` then `(1, 2)`. |
| SnapshotJourney.Show | src/journey.rs:43-51 | The printout has `3 * num_visited - 1` characters: square `i` at offset `3 * i`, with a single space before every square but the first. |
| SnapshotSearch.New | src/backtracking.rs:12-18 | The stack holds a single candidate of count 0 with the fresh journey, and it satisfies the search invariant. |
| SnapshotSearch.Children | src/backtracking.rs:36-42 | One child per offered move, in order. Each child has count `count + 1` and a copy of the journey with that move played. |
| SnapshotSearch.Step | src/backtracking.rs:31-43 | A popped complete journey is returned as it is, with the rest of the stack. Otherwise its children replace it. Every journey on the stack keeps `num_visited == count + 1`. |
| SnapshotSearch.ChildFromStart | src/backtracking.rs:36-42 | A child of a candidate from `start` is again a knight's path from `start` that ends at the child's move. |
| SnapshotSearch.StepValid | src/backtracking.rs:31-43 | Each round keeps every journey on the stack a knight's path from the start. |
| SnapshotSearch.ExpansionsValid | src/backtracking.rs:31-43 | Along any sequence of rounds that each pushed children, every open journey stays a knight's path from the start. |
| SnapshotSearch.EmitValid | src/backtracking.rs:31-34 | A journey returned by a round of a search from `start` starts there, is a knight's path and covers the board, and the stack left behind stays valid. |
| SnapshotSearch.ExpandDecreasesWeight | src/backtracking.rs:36-42 | Replacing a candidate by its at most 8 children strictly lowers the stack's weight, the sum of `9^(64 - num_visited)`. |
| SnapshotSearch.Next | src/backtracking.rs:30-45 | `next` terminates. The ghost trace starts at the given stack, and each of its stacks is reached from the previous one by a round that pushed children. `None` is returned exactly with the last of them, which has an empty stack. A journey is returned exactly when the round from the last of them returns it, and the stack returned is the one after that round. A returned journey is complete. When the search starts from `start`, the returned journey starts there, is a knight's path and covers the board. |
| SnapshotSearch.SolutionIsTour | src/backtracking.rs:32-33 | A complete knight's path visits all 64 squares. |
| KnightsJourney.New | examples/knights_journey/journey.rs:22-31 | Only the start square is visited, and the knight stands on it. |
| KnightsJourney.NextDecisions | examples/knights_journey/journey.rs:48-51 | Exactly the board's targets from the knight's square that are not visited, each as many times as the board lists it. |
| KnightsJourney.PlayMove | examples/knights_journey/journey.rs:58-61 | The knight moves to `next` and `next` becomes visited. Nothing else changes. |
| KnightsJourney.Undo | examples/knights_journey/journey.rs:53-56 | `last` becomes unvisited and the knight returns to the last square of the history, or to the start. Nothing else changes. |
| KnightsJourney.PlayUndo | examples/knights_journey/journey.rs:53-61 | Playing an unvisited square and then undoing it restores the journey. |
| KnightsJourney.IsSolution | examples/knights_journey/journey.rs:63-71 | A solution exists exactly when the history has 63 entries. It is the start followed by the history. |
| KnightsJourney.Show | examples/knights_journey/journey.rs:34-42 | The 64 squares separated by single spaces. |
| KnightsJourney.PlayConsistent | examples/knights_journey/journey.rs:48-61 | Playing an offered square keeps the visited flags equal to {start} plus the history, and keeps the history free of repeats. |
| KnightsJourney.ReplayConsistent | examples/knights_journey/journey.rs:22-61 | Along every legal history, three things hold: the visited flags are exactly the start and the history squares, these are pairwise distinct, and the knight stands on the last one. |
| KnightsJourney.UndoInverts | examples/knights_journey/journey.rs:53-61 | The journey meets the engine's contract: `undo` reverts `play_move` along every legal history. |
| KnightsJourney.Instance | examples/knights_journey/journey.rs:44-72 | The `Problem` implementation over a given board: `next_decisions`, `undo`, `play_move` and `is_solution` as the engine calls them. It has no contract of its own; `KnightsJourney.UndoInverts` proves that it meets the engine's contract. |
| KnightsJourney.SolutionIsJourney | examples/knights_journey/journey.rs:63-71 | A solution is 64 distinct squares from the start, each offered by the board from the previous one. |
| SudokuGame.FromBytes | examples/sudoku.rs:31-38 | A grid is refused exactly when some byte exceeds 9. Otherwise it is stored unchanged. |
| SudokuGame.New | examples/sudoku.rs:26-29 | The empty grid, which `from_bytes` accepts. |
| SudokuGame.GroupOffset | examples/sudoku.rs:57-61 | The block offset is `27 * (row / 3) + 3 * (col / 3)`, the block's top-left cell. |
| SudokuGame.GroupCellRowCol | examples/sudoku.rs:64-65 | The `k`-th enumerated block cell lies on the grid, `k / 3` rows and `k % 3` columns from the block's corner. |
| SudokuGame.GroupCellIndex | examples/sudoku.rs:64-65 | Every cell of the block is enumerated, at position `3 * (row % 3) + col % 3`. |
| SudokuGame.GroupCellsAreBlock | examples/sudoku.rs:57-65 | The nine enumerated cells lie in `0..81` and are exactly the cells of the block of `i`. |
| SudokuGame.AllowedIffFree | examples/sudoku.rs:62-69 | The three `any` filters reject a digit exactly when some cell sharing the row, the column or the block holds it. |
| SudokuGame.DigitsFrom | examples/sudoku.rs:66-69 | The filter chain over `1..=9` gives, ascending, exactly the digits that pass. |
| SudokuGame.PossibleDigitsAt | examples/sudoku.rs:56-70 | Ascending, exactly the digits `1..=9` found in neither the row, the column nor the block of the cell. |
| SudokuGame.PossibleDigitsExact | examples/sudoku.rs:56-70 | Any ascending list of exactly the free digits is the result of `possible_digits_at`. |
| SudokuGame.FirstEmpty | examples/sudoku.rs:91 | The scan for the first zero: the first empty cell, or none when every cell holds a digit. |
| SudokuGame.FirstEmptyFinds | examples/sudoku.rs:91 | A cell that is empty, with every earlier cell filled, is the one found. |
| SudokuGame.NextDecisions | examples/sudoku.rs:90-108 | On a full grid the buffer is left alone. If the first empty cell takes no digit, the buffer is cleared. Otherwise the buffer is kept and extended. |
| SudokuGame.NextDecisionsAppends | examples/sudoku.rs:90-108 | Whenever the game offers decisions, they are appended to whatever the buffer held: the result is the buffer followed by the decisions offered for an empty buffer. |
| SudokuGame.DecisionsAreWrites | examples/sudoku.rs:90-108 | With an empty buffer, the decisions are the writes of the possible digits into the first empty cell, in order. |
| SudokuGame.DecisionsSound | examples/sudoku.rs:90-108 | Every offered decision writes a digit `1..=9` that is free in the first empty cell. |
| SudokuGame.DecisionsOrdered | examples/sudoku.rs:90-108 | The offered decisions all target one cell and go up in digit order. |
| SudokuGame.DecisionsComplete | examples/sudoku.rs:90-108 | Every digit free in the first empty cell is offered. |
| SudokuGame.NextDecisionsFirstEmpty | examples/sudoku.rs:90-108 | With an empty buffer, the decisions are exactly the free digits of the first empty cell, ascending. |
| SudokuGame.Decide | examples/sudoku.rs:114-116 | The digit is written into its cell and no other cell changes. |
| SudokuGame.Undo | examples/sudoku.rs:110-112 | The decision's cell becomes empty and no other cell changes. |
| SudokuGame.DecideUndo | examples/sudoku.rs:110-116 | On an empty cell, `decide` then `undo` restores the grid. |
| SudokuGame.IsSolution | examples/sudoku.rs:118-124 | A copy of the grid exactly when no cell is empty. |
| SudokuGame.OfferedIntoEmptyCell | examples/sudoku.rs:90-108 | Every offered decision writes a digit `1..=9` into an empty cell. |
| SudokuGame.UndoInverts | examples/sudoku.rs:110-116 | Sudoku meets the engine's contract: `undo` reverts `decide` along every legal history, from any grid. |
| SudokuGame.Instance | examples/sudoku.rs:85-125 | The `Problem` implementation: `next_decisions`, `undo`, `decide` and `is_solution` as the engine calls them. It has no contract of its own; `SudokuGame.UndoInverts` proves that it meets the engine's contract. |
| SudokuGame.ReplayValidDigits | examples/sudoku.rs:46-50 | Along every legal history from a grid of valid bytes, every cell still holds 0..=9, so the printer's `unreachable!()` arm is never reached. |
| SudokuGame.Glyph | examples/sudoku.rs:46-50 | An empty cell prints as `X` and a digit as its own character. |
| SudokuGame.RenderCells | examples/sudoku.rs:41-51 | The print loop places cell `k` at offset `k + k / 9`, with a line break before every row but the first. |
| SudokuGame.PrintTo | examples/sudoku.rs:40-54 | 90 characters: nine lines of nine glyphs, each ending in a line break, with cell `(r, c)` at offset `10 * r + c`. |
| SudokuGame.PrintedAt | examples/sudoku.rs:40-54 | Character `c` of printed line `r` is the glyph of cell `(r, c)`, or the line break when `c` is 9. |
| SudokuGame.PrintEmpty | examples/sudoku.rs:133-151 | The empty grid prints as nine lines `XXXXXXXXX`. |
| SudokuGame.FirstRowFields | examples/sudoku.rs:153-165 | The test grid with the first row filled holds only valid bytes. |
| SudokuGame.DecideAll | examples/sudoku.rs:114-116 | Playing a sequence of writes leaves every cell that no write targets unchanged. A cell holds the digit of the last write to it. |
| SudokuGame.FirstRowByWrites | examples/sudoku.rs:156-165 | The nine `play_move` calls of the first-row test, played on a new game, give the test grid. |
| SudokuGame.PrintFirstRowFilled | examples/sudoku.rs:153-180 | With 1 to 9 in the first row, the printout is `123456789` followed by eight lines of `X`. |
| SudokuGame.PrintFirstRowTest | examples/sudoku.rs:153-180 | The whole first-row test: a new game, nine `play_move` calls, then `print_to` gives the expected text. |
| SudokuGame.PreventSameDigitTwiceInSameRow | examples/sudoku.rs:182-196 | After a new game plays 2 into cell 0, 5 into cell 8 and 5 into cell 69, cell 1 takes exactly `[1, 3, 4, 6, 7, 8, 9]`. |
| SudokuGame.RowTestByWrites | examples/sudoku.rs:184-190 | The three writes of the row test, played on a new game, give the grid with 2 in cell 0 and 5 in cells 8 and 69. |
| SudokuGame.PreventSameDigitTwiceInSameCol | examples/sudoku.rs:198-211 | After a new game plays 2 into cell 3 and 5 into cell 48, cell 21 takes exactly `[1, 3, 4, 6, 7, 8, 9]`. |
| SudokuGame.ColTestByWrites | examples/sudoku.rs:200-205 | The two writes of the column test, played on a new game, give the grid with 2 in cell 3 and 5 in cell 48. |
| SudokuGame.ShortCircuitDeadEnd | examples/sudoku.rs:213-234 | After a new game plays 1 to 8 into cells 0 to 7 and 9 into cell 17, cell 8 takes no digit, so no decision is offered, whatever the buffer held. |
| SudokuGame.DeadEndByWrites | examples/sudoku.rs:215-227 | The nine writes of the short-circuit test, played on a new game, give its grid. |
| NQueensGame.New | examples/n_queens.rs:20-25 | An `n` board without queens. |
| NQueensGame.ConflictsSymmetricReflexive | examples/n_queens.rs:58-62 | Conflict is symmetric, and every queen conflicts with itself. |
| NQueensGame.Conflicts | examples/n_queens.rs:58-62 | Two queens conflict exactly when they share a row, a column, a row-minus-column diagonal or a row-plus-column diagonal. This is the reference definition of the `abs_diff` test. |
| NQueensGame.RowCandidates | examples/n_queens.rs:74-77 | Exactly the queens of the next row, columns `col..n` ascending, that conflict with no placed queen. |
| NQueensGame.NextDecisions | examples/n_queens.rs:69-79 | With `n` queens placed the buffer is left alone. Otherwise it is extended with exactly the safe queens of the next row, in ascending column order. |
| NQueensGame.Decide | examples/n_queens.rs:85-87 | The queen is appended after all others. |
| NQueensGame.Undo | examples/n_queens.rs:81-83 | The last queen is removed. On an empty board nothing changes. |
| NQueensGame.DecideUndo | examples/n_queens.rs:81-87 | `decide` then `undo` restores the board. |
| NQueensGame.IsSolution | examples/n_queens.rs:89-95 | The board exactly when `n` queens stand on it. |
| NQueensGame.InsertByRow | examples/n_queens.rs:30-31 | Inserting a queen into a row-sorted list keeps it sorted and adds exactly that queen. A queen whose row is at least every other row goes last. |
| NQueensGame.SortByRow | examples/n_queens.rs:30-31 | `sort_by_key(row)` returns a row-sorted permutation of the queens. |
| NQueensGame.SortByRowKeepsRowOrder | examples/n_queens.rs:30-31 | Queens already in strictly increasing rows are left in place. |
| NQueensGame.Line | examples/n_queens.rs:40-44 | A line has `n + 1` characters: `Q` at the queen's column, dots elsewhere, then a line break. |
| NQueensGame.Lines | examples/n_queens.rs:40-45 | Line `k` of the output is the line of the `k`-th queen, at offset `Stride(k, n + 1)`, which is `k * (n + 1)`. |
| NQueensGame.Show | examples/n_queens.rs:28-48 | The queens are printed in row order, one line per queen: the output holds the line of every queen of the row-sorted permutation. |
| NQueensGame.ShowLength | examples/n_queens.rs:28-48 | The output has `n + 1` characters per queen. |
| NQueensGame.UndoInverts | examples/n_queens.rs:81-87 | N-Queens meets the engine's contract: `undo` reverts `decide` along every history. |
| NQueensGame.Instance | examples/n_queens.rs:65-96 | The `Problem` implementation: `next_decisions`, `undo`, `decide` and `is_solution` as the engine calls them. It has no contract of its own; `NQueensGame.UndoInverts` proves that it meets the engine's contract. |
| NQueensGame.PlaceStep | examples/n_queens.rs:69-87 | Placing an offered queen extends a valid placement. |
| NQueensGame.ReplayPlacement | examples/n_queens.rs:69-87 | Along every legal history from the empty board, the queens are the history. Queen `i` stands in row `i` at a column below `n`, and no two queens conflict. |
| NQueensGame.SolutionIsPlacement | examples/n_queens.rs:89-95 | A solution places `n` pairwise non-conflicting queens, one per row in row order, and its printout needs no reordering. |

## Left out

- `src/main.rs` and `examples/knights_journey/main.rs` are drivers that print solutions; they
  are not part of this model. The test in `src/main.rs` is modelled as `SnapshotJourney.FillFromCorner`.
- `src/sudoku.rs`: its `Game` implementation is `todo!()` throughout, so it has no behaviour to
  model. Its constructor and printer duplicate `examples/sudoku.rs`.
- `examples/knights_journey/board.rs` is not part of this model. `Board::reachable_fields` is the
  function parameter `board` of `KnightsJourney`.
- `src/journey.rs:38` calls `Position::possible_moves`, which `src/position.rs` does not define.
  The model uses `reachable_fields` from `src/position.rs` in its place.
- Trait-name and signature drift between the snapshots:
  - `examples/n_queens.rs` and `examples/knights_journey/journey.rs:48` declare `next_decisions` without a history argument;
  - `examples/knights_journey/journey.rs:45` declares `type Decision` where `src/lib.rs:15` says `type Posibility`;
  - the examples say `decide`/`play_move` where `src/lib.rs` says `what_if`. Each is mapped onto the four operations of
  `Backtracking.Problem`, whose `extend` takes the state, the buffer and the history.
- Backtracking.Next: takes a `fuel` bound on the number of rounds and reports `OutOfFuel` when it
  runs out. The Rust loop is unbounded, and for a general problem it need not terminate.
  The knight's search of `src/backtracking.rs` is proved to terminate without fuel.
- The reused `decisions` buffer of `src/lib.rs` is not state in the model. The engine always asks
  the problem with an empty buffer, which is what clearing it achieves.
- I/O and formatting errors (`io::Result`, `fmt::Result`) are not modelled. The printers are pure
  functions returning strings.
- Panics are preconditions or error results:
  - `from_bytes` returns `None` where the Rust code panics;
  - `play_move` beyond 64 squares is excluded by a precondition;
  - the printer's `unreachable!()` is excluded by `ValidDigits`, which `ReplayValidDigits` shows is kept.
- Integer widths:
  - the `i8` index of `Position` is modelled only for on-board squares. `Position::new` is only ever called on squares that `reachable_fields` has checked are on the board, and on `(0, 0)`. So indices outside `0..64` never arise, and the truncating `/` and `%` of `row()`/`column()` never see a negative index (where they would differ from Dafny's Euclidean ones);
  - the `i32` cast of the undo count and the `u32` counts are unbounded integers, and the stack
    invariant keeps the undo count non-negative.
- `examples/knights_journey/position.rs` and the constant `NUM_FIELDS` of `board.rs` are not part of this model.
  `KnightsJourney` uses `Positions.Position` from `src/position.rs` in their place: its `index` stands for `as_index` and `Positions.Show` for its `Display`.
  `NUM_FIELDS` is taken to be 64.
- KnightsJourney.NextDecisions: does not read the buffer. It assumes that `Board::reachable_fields` replaces the buffer's contents, as `Position::reachable_fields` does. Under the engine, which always passes an empty buffer, appending would give the same result.
- The `current` and `possible_moves` fields of `Solutions` in `src/backtracking.rs` are not state in `SnapshotSearch`. `current` is never read: each candidate carries its own copy of the journey. `possible_moves` is a reused buffer. The model takes it to be cleared before it is filled, as `reachable_fields` does, since `src/journey.rs:38` calls it through the missing `possible_moves`.
- NQueensGame.Show: requires every column below `n`, because `n - column - 1` is computed in `u32`
  and underflows otherwise. Queens placed by the engine always satisfy this.
- NQueensGame.Show: line offsets are written `Seqs.Stride(k, n + 1)` rather than `k * (n + 1)`.
  `Seqs.StrideIsProduct` proves the two equal.
- Seqs.Retain: the contract does not state that the kept elements stay in their original order.
- KnightsJourney.NextDecisions: the contract does not state that the board's order is kept.
- Positions.ReachableFields: the contract does not state the `MOVES` order of the result; `Positions.ReachableFromCorner` pins it for A1.
- SnapshotJourney.FillPossibleMoves: the contract does not state the order of the result; `SnapshotJourney.FillFromCorner` pins it for A1.
- NQueensGame.SortByRow: stability of `sort_by_key` for queens in equal rows is not stated. Queens
  placed by the engine are in distinct rows.
- Solution counts for full searches (for example, 2 solutions for 4 queens) and termination of the
  generic engine on finite problems are not stated. The search is exponential, and no such
  contract appears in the code.
- Where the code comments on the block offset in `possible_digits_at` as the "upper right corner",
  the code computes the block's top-left cell. The model follows the code (`SudokuGame.GroupOffset`).
