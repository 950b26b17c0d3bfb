# Crossword, Minesweeper and Tic-tac-toe: a Dafny model

This project models three pieces of game and search logic and proves properties about them.

- **Crossword generator** (`Crossword/generate.py`). A crossword is a constraint problem.
  - Each slot ("variable") has a domain of candidate words.
  - Node consistency keeps the words of the right length.
  - AC-3 removes words that have no partner in a neighbouring slot's domain at their shared cell.
  - A backtracking search picks the slot with the fewest remaining words (ties broken by degree). It tries the least constraining words first and keeps arc consistency after each tentative assignment.
  - `CrosswordRules` (crossword_rules.dfy) holds the puzzle as read-only input, the value-level definitions (revised domain, arc consistency, consistency of an assignment, entry ordering, the variable-selection index) and the lemmas about them.
  - `Crossword` (crossword.dfy) holds the class `CrosswordCreator`. Its `domains` map is rewritten entry by entry by the imperative operations.
- **Minesweeper** (`Minesweeper/minesweeper.py`), in module `Minesweeper` (minesweeper.dfy).
  - The board class `Game` answers mine and neighbour-count queries.
  - A `Sentence` is a mutable pair of a cell set and a mine count.
  - `MinesweeperAI` keeps the moves made, the known mines and safes, and a list of shared `Sentence` objects. It runs forward inference over that list while the list grows.
  - The sentences' values (`Fact`) and the predicate "holds for the true mine set `m`" state soundness: every operation that adds or rewrites knowledge keeps every sentence true of the real board.
- **Tic-tac-toe** (`Tictactoe/tictactoe.py`), in module `TicTacToe` (tictactoe.dfy).
  - The rules are pure functions on a 3×3 board of `Option<Mark>`.
  - The minimax search with its unusual cutoff is modelled as mutually recursive functions.
  - The top-level `Minimax` is a method that scans the legal actions.

`Wrappers` (wrappers.dfy) defines `Option`.

## Model

| member | source | states |
|---|---|---|
| TicTacToe.InitialState | Tictactoe/tictactoe.py:14-20 | every one of the nine cells is empty |
| TicTacToe.Player | Tictactoe/tictactoe.py:23-38 | O moves exactly when X holds more cells than O; otherwise X |
| TicTacToe.Actions | Tictactoe/tictactoe.py:41-50 | an action is available exactly when it is inside the 3×3 board and that cell is empty |
| TicTacToe.Result | Tictactoe/tictactoe.py:53-64 | on an empty cell: the new board has the mover's mark there, every other cell unchanged, and that cell removed from the available actions; on an occupied cell: ValueError |
| TicTacToe.WinnerFrom | Tictactoe/tictactoe.py:71-75 | a mark found in rows/columns from index i on fills a line; no mark found means no row or column from i on is filled by one mark |
| TicTacToe.Winner | Tictactoe/tictactoe.py:67-81 | a returned mark fills some row, column or diagonal; None is returned exactly when neither mark fills a line |
| TicTacToe.Terminal | Tictactoe/tictactoe.py:84-95 | the game is over exactly when a mark fills a line or no cell is empty |
| TicTacToe.Utility | Tictactoe/tictactoe.py:98-107 | the value is in -1..1: 1 only if X has a line, -1 only if O has a line, and 0 exactly when no one has a line |
| TicTacToe.FreeFrom | Tictactoe/tictactoe.py:45-50 | lists exactly the empty in-range cells at or after a row-major position |
| TicTacToe.ActionList | Tictactoe/tictactoe.py:45-50 | the iteration order over actions lists exactly the set of available actions |
| TicTacToe.MinValue | Tictactoe/tictactoe.py:139-147 | Min_Value returns a value in -1..1 and terminates (measure: number of empty cells) |
| TicTacToe.MaxValue | Tictactoe/tictactoe.py:151-159 | Max_Value returns a value in -1..1 and terminates |
| TicTacToe.MinScan | Tictactoe/tictactoe.py:142-147 | the loop of Min_Value with its early return below v yields a value in -1..1 |
| TicTacToe.MaxScan | Tictactoe/tictactoe.py:154-159 | the loop of Max_Value with its early return above v yields a value in -1..1 |
| TicTacToe.Minimax | Tictactoe/tictactoe.py:110-136 | an action is returned exactly when one is available, and it is a member of the available actions (the initial ±2 is outside the utility range, so the first action always sets the choice) |
| TicTacToe.ResultCounts | Tictactoe/tictactoe.py:53-64 | a move adds exactly the played cell to the mover's cells and leaves the other mark's cells unchanged |
| TicTacToe.ResultAlternates | Tictactoe/tictactoe.py:23-38 | on a board reached by alternating play, a move keeps play alternating and hands the turn to the other mark |
| TicTacToe.InitialStateFacts | Tictactoe/tictactoe.py:14-20 | the empty board alternates, X moves first, the game is not over, and all nine cells are available |
| TicTacToe.EndingScenarios | Tictactoe/test.py:31-54 | two finished boards from the driver: X wins the top row (utility 1); O wins the bottom row on a full board (utility -1) |
| Minesweeper.AroundMember | Minesweeper/minesweeper.py:63-78 | a cell is counted around `cell` exactly when it is within one row and column, is not `cell`, and lies on the board |
| Minesweeper.AroundSize | Minesweeper/minesweeper.py:246-247 | a cell has at most eight neighbours |
| Minesweeper.MinesBeforeStep | Minesweeper/minesweeper.py:66-78 | one step of the 3×3 scan adds one to the running count exactly when the scanned cell is a mine adjacent to `cell` |
| Minesweeper.MinesBeforeRow | Minesweeper/minesweeper.py:66-78 | finishing a row of the scan moves to the next row; finishing the last row yields exactly the mines around `cell` |
| Minesweeper.MinesAroundSize | Minesweeper/minesweeper.py:55-78 | with every mine on the board, at most eight mines surround a cell |
| Minesweeper.Game.constructor | Minesweeper/minesweeper.py:10-34 | the board has the given size, true exactly at the placed mines, and no mine is found yet |
| Minesweeper.Game.IsMine | Minesweeper/minesweeper.py:51-53 | a cell is a mine exactly when it is in the mine set |
| Minesweeper.Game.NearbyMines | Minesweeper/minesweeper.py:55-78 | the count equals the number of mines in the in-board 3×3 block around the cell, excluding the cell, and is at most 8 |
| Minesweeper.Game.Won | Minesweeper/minesweeper.py:80-84 | the game is won exactly when the found mines are the mines |
| Minesweeper.MineMarkedHolds | Minesweeper/minesweeper.py:124-134 | marking a real mine in a true sentence (cell removed, count minus one) leaves it true |
| Minesweeper.SafeMarkedHolds | Minesweeper/minesweeper.py:136-145 | marking a safe cell in a true sentence (cell removed, count kept) leaves it true |
| Minesweeper.AllMines | Minesweeper/minesweeper.py:104-112 | in a true sentence with no more cells than its count, every cell is a mine |
| Minesweeper.SubsetDifferenceHolds | Minesweeper/minesweeper.py:231-236 | for true sentences s1 ⊆ s2, the difference sentence (s2 − s1, count2 − count1) is true |
| Minesweeper.Sentence.constructor | Minesweeper/minesweeper.py:94-96 | the sentence holds the given cells and count |
| Minesweeper.Sentence.Value | Minesweeper/minesweeper.py:94-99 | the value of a sentence is its cells and its count, the two fields `__eq__` compares |
| Minesweeper.Sentence.Equals | Minesweeper/minesweeper.py:98-99 | two sentences are equal exactly when their values (cells and count) are equal; the "not in knowledge" test of AddDerived compares values this way |
| Minesweeper.Sentence.KnownMines | Minesweeper/minesweeper.py:104-112 | returns all cells when there are no more cells than the count, else the empty set; every returned cell is a mine in any board where the sentence is true |
| Minesweeper.Sentence.KnownSafes | Minesweeper/minesweeper.py:114-122 | returns all cells when the count is 0, else the empty set; no returned cell is a mine in any board where the sentence is true |
| Minesweeper.Sentence.MarkMine | Minesweeper/minesweeper.py:124-134 | a present cell is removed and the count drops by one; otherwise nothing changes |
| Minesweeper.Sentence.MarkSafe | Minesweeper/minesweeper.py:136-145 | the cell is removed and the count never changes |
| Minesweeper.MineMarkedAll | Minesweeper/minesweeper.py:174-176 | after marking a mine in every sentence, no sentence contains that cell |
| Minesweeper.SafeMarkedAll | Minesweeper/minesweeper.py:183-185 | after marking a safe cell in every sentence, no sentence contains that cell |
| Minesweeper.MineMarkedAllHolds | Minesweeper/minesweeper.py:169-176 | marking a real mine throughout a true knowledge list keeps it true |
| Minesweeper.SafeMarkedAllHolds | Minesweeper/minesweeper.py:178-185 | marking a real safe cell throughout a true knowledge list keeps it true |
| Minesweeper.MinesMarkedAll | Minesweeper/minesweeper.py:224-225 | after marking a set of mines in every sentence, no sentence contains any of them |
| Minesweeper.SafesMarkedAll | Minesweeper/minesweeper.py:228-229 | after marking a set of safe cells in every sentence, no sentence contains any of them and no count changes |
| Minesweeper.MarkedNone | Minesweeper/minesweeper.py:224-229 | marking no cell changes no sentence |
| Minesweeper.MinesMarkedStep | Minesweeper/minesweeper.py:124-134 | marking one more mine after a set of mines is marking the enlarged set, so the order of the loop does not matter |
| Minesweeper.SafesMarkedStep | Minesweeper/minesweeper.py:136-145 | marking one more safe cell after a set of safe cells is marking the enlarged set |
| Minesweeper.MinesMarkedAllHolds | Minesweeper/minesweeper.py:223-225 | marking a set of real mines throughout a true knowledge list keeps it true |
| Minesweeper.SafesMarkedAllHolds | Minesweeper/minesweeper.py:227-229 | marking a set of really safe cells throughout a true knowledge list keeps it true |
| Minesweeper.MinesweeperAI.constructor | Minesweeper/minesweeper.py:153-167 | the AI starts with the given size, no moves, no known mines or safes, and no knowledge |
| Minesweeper.MinesweeperAI.MarkMine | Minesweeper/minesweeper.py:169-176 | the cell joins the known mines, the other sets are unchanged, and every sentence is mine-marked (none contains the cell afterwards) |
| Minesweeper.MinesweeperAI.MarkSafe | Minesweeper/minesweeper.py:178-185 | the cell joins the known safes, the other sets are unchanged, and every sentence is safe-marked (none contains the cell afterwards) |
| Minesweeper.MinesweeperAI.GetNeighbors | Minesweeper/minesweeper.py:238-254 | exactly the cells within one step of the cell, not the cell itself, inside the default 8×8 board |
| Minesweeper.MinesweeperAI.RecordMove | Minesweeper/minesweeper.py:203-218 | the cell joins the moves made and the safes, all sentences are safe-marked, and the new report sentence is appended only if non-empty; a truthful report keeps the knowledge true |
| Minesweeper.MinesweeperAI.Unknowns | Minesweeper/minesweeper.py:207-214 | the new sentence's cells are the 8×8 neighbours less the safes, the moves made and the known mines, with the known mines among them taken off the count |
| Minesweeper.MinesweeperAI.AddReport | Minesweeper/minesweeper.py:207-218 | exactly the report sentence (if non-empty) is appended; a truthful report about a safe cell keeps the knowledge true |
| Minesweeper.ReportHolds | Minesweeper/minesweeper.py:207-218 | the sentence a truthful report adds is true of the real board |
| Minesweeper.NewSentenceHolds | Minesweeper/minesweeper.py:211-214 | removing known mines from a true neighbour sentence and lowering the count by their number keeps it true |
| Minesweeper.MinesweeperAI.Infer | Minesweeper/minesweeper.py:220-236 | inference leaves the moves made unchanged, keeps every existing sentence in place and only appends, only adds to the known mines and safes, and keeps true knowledge true |
| Minesweeper.MinesweeperAI.InferStep | Minesweeper/minesweeper.py:221-236 | one pass of the outer loop for sentence k: after marking its known mines (or else safes), the list holds the marked sentences as a prefix, every appended sentence is a new proper-subset difference with sentence k, every compared sentence that strictly contains sentence k has its difference in the list, the budget left is exact, and soundness is kept |
| Minesweeper.MinesweeperAI.MarkKnown | Minesweeper/minesweeper.py:222-229 | when the sentence has known mines, exactly its cells are marked as mines in every sentence; otherwise, when it has known safes, exactly its cells are marked safe; otherwise nothing changes; soundness is kept |
| Minesweeper.MinesweeperAI.MarkAllMines | Minesweeper/minesweeper.py:223-225 | every given cell joins the known mines, and every sentence loses those cells, its count dropping by the number it held; the list of sentences is the same; soundness is kept |
| Minesweeper.MinesweeperAI.MarkAllSafes | Minesweeper/minesweeper.py:227-229 | every given cell joins the known safes, and every sentence loses those cells with its count unchanged; the list of sentences is the same; soundness is kept |
| Minesweeper.MinesweeperAI.CompareWithAll | Minesweeper/minesweeper.py:231-236 | comparing sentence k with every sentence (including the ones appended meanwhile) keeps the old list as a prefix, appends only new differences of sentence k with sentences that strictly contain it, leaves the difference of every compared strict superset in the list, uses up exactly min(budget, list length) comparisons, only appends fresh sentences, and keeps soundness |
| Minesweeper.MinesweeperAI.CompareStep | Minesweeper/minesweeper.py:231-236 | one comparison extends the sweep by one compared sentence, keeping the list as a prefix and soundness |
| Minesweeper.MinesweeperAI.AddDerived | Minesweeper/minesweeper.py:232-236 | for a proper subset, the difference sentence is appended exactly when no equal sentence (same cells and count) is present; nothing else changes; soundness is kept |
| Minesweeper.SubsetDerivedHolds | Minesweeper/minesweeper.py:231-236 | appending the difference of two true sentences to a true list keeps it true |
| Minesweeper.DerivedStep | Minesweeper/minesweeper.py:231-236 | one comparison of sentence s with sentence j keeps the original list as a prefix, appends only a new difference with a strict superset, and leaves sentences 0 to j compared |
| Minesweeper.MinesweeperAI.Append | Minesweeper/minesweeper.py:218 | a fresh sentence with the given value is added at the end of the knowledge list |
| Minesweeper.MinesweeperAI.AddKnowledge | Minesweeper/minesweeper.py:187-236 | the cell ends up in the moves made and the safes, the known mines and safes only grow, and a truthful report keeps all knowledge true |
| Minesweeper.MinesweeperAI.MakeSafeMove | Minesweeper/minesweeper.py:256-271 | None exactly when every known-safe cell was played; otherwise a known-safe cell not yet played; nothing is modified |
| Minesweeper.MinesweeperAI.MakeRandomMove | Minesweeper/minesweeper.py:273-293 | an 8×8 cell neither played nor a known mine; None exactly when there is none |
| CrosswordRules.NeighborArc | Crossword/generate.py:165-168 | a neighbour relation gives arcs in both directions between distinct variables |
| CrosswordRules.NeighborOfArc | Crossword/generate.py:151-155 | the source of an arc into x is a neighbour of x |
| CrosswordRules.AgreeSymmetric | Crossword/generate.py:193-200 | two words agree at the overlap of x and y exactly when they agree at the overlap of y and x |
| CrosswordRules.FitLength | Crossword/generate.py:103-110 | a word is kept exactly when it was in the domain and has the variable's length |
| CrosswordRules.PairsShrink | Crossword/generate.py:156-168 | strictly shrinking one domain strictly shrinks the set of (variable, word) pairs, which is AC-3's termination measure |
| CrosswordRules.RevisedFacts | Crossword/generate.py:121-138 | the revised domain is a subset of the old one; it makes x arc-consistent with y; it equals the old one exactly when x was already arc-consistent; with no overlap it is unchanged |
| CrosswordRules.RevisedKeepsReverse | Crossword/generate.py:121-138 | revising x against y keeps y arc-consistent with x |
| CrosswordRules.OtherArcAfterRevise | Crossword/generate.py:156-168 | revising x keeps every arc consistent that does not point into x |
| CrosswordRules.ReviseStep | Crossword/generate.py:156-168 | after one queue step (revise and, on change, re-enqueue the neighbours' arcs into x), every arc not in the queue is consistent |
| CrosswordRules.ValuesCount | Crossword/generate.py:201-203 | an assignment has no more distinct words than variables, and as many exactly when no two variables hold the same word |
| CrosswordRules.SatisfiesPart | Crossword/generate.py:182-204 | every part of an assignment that satisfies the puzzle satisfies it too |
| CrosswordRules.SolutionSupported | Crossword/generate.py:121-138 | in every solution, the word of x has a supporting word of y at their overlap, so it survives the revision of x against y |
| CrosswordRules.SolutionNarrowed | Crossword/generate.py:121-138 | narrowing one domain to a set holding the solution's word for that variable keeps it a solution |
| CrosswordRules.RevisedKeepsSolutions | Crossword/generate.py:112-138 | revising x against y removes no word that some solution uses |
| CrosswordRules.FitLengthKeepsSolutions | Crossword/generate.py:96-110 | node consistency removes no word that some solution uses |
| CrosswordRules.KeepsTransitive | Crossword/generate.py:140-169 | two narrowings that keep every solution compose into one that does |
| CrosswordRules.EmptiedNoSolution | Crossword/generate.py:160-163 | when a narrowing that keeps every solution empties some domain, there was no solution |
| CrosswordRules.UnsatisfiedNoSolution | Crossword/generate.py:286-287 | an assignment that is not consistent is extended by no solution |
| CrosswordRules.KeepsNoSolution | Crossword/generate.py:297-304 | if no solution within narrowed domains extends an assignment, and the narrowing kept every solution, none within the old domains does |
| CrosswordRules.TriedValue | Crossword/generate.py:282-307 | a value for which the search failed joins the values that no solution extending the input uses |
| CrosswordRules.AllTried | Crossword/generate.py:282-308 | once every value of the variable's domain has failed, no solution extends the input |
| CrosswordRules.InsertEntry | Crossword/generate.py:231 | inserting into a sorted list keeps it sorted and adds exactly the entry |
| CrosswordRules.SortEntries | Crossword/generate.py:231 | `sorted(zip(...))`: the result is a permutation of the entries and sorted by (count, word) |
| CrosswordRules.WordsOf | Crossword/generate.py:231 | the words list has one word per entry, in order |
| CrosswordRules.SortedWords | Crossword/generate.py:231 | sorting keeps the same entries (both ways), the same length, and distinct words |
| CrosswordRules.SameWords | Crossword/generate.py:231 | lists with the same entries have the same words |
| Lists.Min | Crossword/generate.py:255 | the minimum is in the list and no greater than any element |
| Lists.Max | Crossword/generate.py:261 | the maximum is in the list and no smaller than any element |
| CrosswordRules.IndexOf | Crossword/generate.py:262-265 | `list.index`: the first position holding the value |
| CrosswordRules.TiedDegrees | Crossword/generate.py:259-260 | the degrees of exactly the variables tied at minimum domain size |
| CrosswordRules.SelectIndexAsWritten | Crossword/generate.py:254-265 | the index the code returns is in range and, when the minimum domain size is unique, has that size |
| CrosswordRules.TieBreakCounterexample | Crossword/generate.py:262 | for domain sizes [2, 1, 1] and degrees [2, 1, 2] the code picks index 0, whose domain size 2 is not the minimum 1 |
| CrosswordRules.FirstTied | Crossword/generate.py:259-262 | the first variable with the minimum size and the given degree |
| CrosswordRules.SelectIndex | Crossword/generate.py:234-265 | the chosen variable has the minimum domain size, and the largest degree among those tied with it |
| CrosswordRules.SelectIndexAgreesWhenUnique | Crossword/generate.py:254-265 | when one variable alone has the minimum domain size, the corrected choice and the code's choice coincide |
| Crossword.CrosswordCreator.constructor | Crossword/generate.py:8-16 | every variable's domain starts as the whole word list |
| Crossword.CrosswordCreator.EnforceNodeConsistency | Crossword/generate.py:96-110 | each new domain is exactly the old domain's words of the variable's length |
| Crossword.CrosswordCreator.Revise | Crossword/generate.py:112-138 | only x's domain changes, to the revised domain; it reports a change exactly when some word was removed |
| Crossword.CrosswordCreator.InitialArcs | Crossword/generate.py:151-155 | the starting queue holds exactly the ordered pairs with a non-None overlap |
| Crossword.CrosswordCreator.AppendArcsInto | Crossword/generate.py:165-168 | the queue is kept as a prefix, and exactly the arcs (z, x) for the neighbours z of x other than the skipped one are appended |
| Crossword.CrosswordCreator.Ac3 | Crossword/generate.py:140-169 | domains only shrink; every solution of the puzzle within the old domains survives; False only when some domain is empty, and then the puzzle has no solution within the old domains; True from the full arc list (or from a queue covering every inconsistent arc) means every arc is consistent |
| Crossword.CrosswordCreator.Ac3Step | Crossword/generate.py:156-168 | one queue step replaces exactly the domain of the arc's source with its revised domain; it either strictly shrinks the domains or leaves them unchanged and shortens the queue, keeping the pending-arc invariant |
| Crossword.CrosswordCreator.AssignmentComplete | Crossword/generate.py:171-180 | True exactly when every variable of the puzzle is assigned; for an assignment over the puzzle's variables, exactly when its keys are all the variables |
| Crossword.CrosswordCreator.Consistent | Crossword/generate.py:182-204 | True exactly when the assignment satisfies the puzzle: every word has its variable's length, no two assigned neighbours clash at their overlap, and no two variables hold the same word |
| Crossword.CrosswordCreator.CountRuledOut | Crossword/generate.py:217-227 | the count is the number of (unassigned neighbour, word) pairs that the value rules out |
| Crossword.CrosswordCreator.ScoreDomain | Crossword/generate.py:213-229 | one entry per domain word, each carrying its ruled-out count |
| Crossword.CrosswordCreator.OrderDomainValues | Crossword/generate.py:206-232 | a permutation of the domain (same members, no repeats) in nondecreasing order of ruled-out count, ties in word order |
| Crossword.CrosswordCreator.Unassigned | Crossword/generate.py:243-252 | exactly the unassigned variables, each with its domain size and degree |
| Crossword.CrosswordCreator.SelectUnassignedVariable | Crossword/generate.py:234-265 | an unassigned variable of minimum domain size and, among those, maximum degree (the corrected tie-break) |
| Crossword.CrosswordCreator.Backtrack | Crossword/generate.py:267-308 | domains only shrink and keep every solution; a result extends the input, assigns every variable, is consistent unless it is the input itself, and takes each new word from the domain at the call; None only when no solution within the domains at the call extends the input |
| Crossword.CrosswordCreator.TryValues | Crossword/generate.py:282-308 | the loop over the ordered domain values: a result extends the input, assigns every variable and is consistent; domains keep every solution; None only when no solution extends the input with any value of the variable's domain |
| Crossword.CrosswordCreator.Descend | Crossword/generate.py:288-304 | after a consistent extension: AC-3 from the arcs into the variable, then the recursive search; None only when no solution extends the input plus the value |
| Crossword.CrosswordCreator.TryValue | Crossword/generate.py:284-307 | one iteration of the value loop: a result extends the input plus the tried value and is consistent; None only when no solution within the domains at the call extends the input plus that value |
| Crossword.CrosswordCreator.Propagate | Crossword/generate.py:292-297 | AC-3 from the arcs into the assigned variable only shrinks domains, keeps every solution, and fails only when some domain is empty, and then no solution exists within the domains at the call |
| Crossword.ShrinkTwice | Crossword/generate.py:297-302 | narrowing by AC-3 and then by the recursive search is one narrowing of the domains |
| Crossword.WordsFromShrunk | Crossword/generate.py:302-304 | words the recursive search takes from narrowed domains lie in the domains of the call |
| Crossword.ExtendsStep | Crossword/generate.py:284-285 | an assignment extending the input plus one new pair extends the input and holds that pair |
| Crossword.CrosswordCreator.Solve | Crossword/generate.py:88-94 | a result is a solution within the domains as they were when `solve` was called (the whole word list, right after the constructor): it assigns every variable, is consistent, and takes every word from those domains; None only when no such solution exists |
| Crossword.CrosswordCreator.LetterGrid | Crossword/generate.py:18-32 | a fresh height×width grid whose cell holds a letter exactly when some assigned word covers it, and that letter is the covering word's letter |
| Crossword.WriteWord | Crossword/generate.py:26-31 | writing one word sets each of its cells to its letter and leaves every other cell unchanged |
| Crossword.PlaceLetter | Crossword/generate.py:29-31 | placing one letter covers exactly its cell with that letter |
| Crossword.PlacedAll | Crossword/generate.py:26-31 | once every letter of every word is placed, coverage and letters are those of the assignment |

## Left out

- Printing, image saving, `main` functions and command-line handling in all three programs are not part of this model. The same holds for `Crossword/crossword.py` (the puzzle loader) and the Heredity, Questions and Shopping programs.
- The crossword puzzle is an abstract read-only input (`Puzzle`). Its well-formedness asks that overlaps are symmetric, lie between distinct variables and fall inside both words. It does not ask that every pair of variables has an overlap entry, because nothing proved here needs that.
- The snapshot and restore in `backtrack` (Crossword/generate.py:289-291, 306-307) are omitted. The snapshot copies references to the very sets that `revise` then narrows in place, so the restore writes back the narrowed sets and changes nothing. The model therefore lets domains only shrink across the search, as the code does. A failed `ac3` likewise continues without restore.
- `backtrack` never narrows the assigned variable's own domain before the arc-consistency run. The model keeps this: the arcs into the variable are revised against its whole domain.
- Python set and dict iteration orders are modelled as arbitrary picks (`:|`). In tic-tac-toe, the actions are scanned in row-major order, so `Minimax` is proved for one fixed order.
- Crossword.CrosswordCreator.Backtrack: `if res:` is modelled as "a result exists". An empty assignment is falsy in Python, which matters only for a puzzle without variables.
- Crossword.CrosswordCreator.Consistent: the code can raise IndexError when an assigned neighbour's word is shorter than the overlap position and that word's own length has not been checked yet. The model returns False there, since that word has the wrong length.
- Crossword.CrosswordCreator.LetterGrid: requires every assigned word's cells to lie inside the grid. Python would index negative positions from the end, and raise IndexError past the end.
- Crossword.CrosswordCreator.SelectUnassignedVariable: uses the corrected tie-break (see Findings), not the code's `degree.index(...)`.
- TicTacToe.Minimax: the returned action is not claimed to be optimal. The cutoff passes the top-level `v` unchanged to every level, which is not alpha-beta pruning. On a full board the code fails with an unbound `act_opt`; the model returns None.
- TicTacToe.MinValue, TicTacToe.MaxValue: only the value range is stated, not the value itself.
- Minesweeper.MinesweeperAI.Infer, Minesweeper.MinesweeperAI.AddKnowledge: the Python loops run over a list that grows while it is being iterated, and they need not stop. For example, an emptied sentence with a non-zero count makes each comparison append again. The model takes a `fuel` bound on the number of comparisons. `Infer` states only what holds after any number of them; each single pass is characterised by `InferStep`.
- Minesweeper.MinesweeperAI.CompareWithAll, Minesweeper.MinesweeperAI.InferStep: the contracts say which sentences may be appended (new differences with a strict superset) and that the difference of every compared strict superset is in the list afterwards. They do not fix the order of the appended sentences.
- Randomness: `Minesweeper.Game.constructor` receives the mine set instead of drawing it. The random placement loop, which never ends when more mines than cells are requested, is not part of this model. `random.sample` in the move pickers is an arbitrary member of the set.
- Minesweeper.MinesweeperAI.MakeRandomMove: returns None when no cell is available; the code's `random.sample` raises on an empty set.
- `get_neighbors` and `make_random_move` use a fresh default board (8×8), not the AI's own size. The model keeps this quirk (`DefaultSize`).
- The Python `is not 0` tests in `add_knowledge` are modelled as integer inequality.
- Integers are unbounded, as in Python.

## Findings

| source | as written | input that shows it | evidently intended | confidence | as-written member | corrected member |
|---|---|---|---|---|---|---|
| Crossword/generate.py:262 | `degree.index(max(min_degree))` searches the degrees of all unassigned variables | domain sizes [2, 1, 1], degrees [2, 1, 2]: the maximum tied degree 2 is found first at index 0, whose domain size 2 is not the minimum 1 | pick the variable of maximum degree among those tied at the minimum domain size | not executed | CrosswordRules.SelectIndexAsWritten, CrosswordRules.TieBreakCounterexample | CrosswordRules.SelectIndex |
