# Crossword CSP, Minesweeper knowledge and tic-tac-toe search, in Dafny

This project models three small AI engines and proves properties of the models:

- **Crossword constraint problem.** This is `CrosswordCreator` in `generate.py`.
  - Each slot of the grid is a variable; its domain is the set of words still possible for it.
  - Node consistency filters words by length. `revise` and `ac3` enforce arc consistency on
    crossing slots.
  - Backtracking search picks the unassigned slot with the fewest remaining values. It counts how
    constraining each word is, and checks partial assignments with `consistent`.
- **Minesweeper knowledge base.** This is `Week1/minesweeper/minesweeper.py`.
  - A `Sentence` is a set of cells with the number of mines among them.
  - The board reports how many mines neighbour a cell.
  - `MinesweeperAI` keeps a list of sentences and the sets of known mines, known safe cells and
    cells played. It updates them when a move reveals a count.
- **Tic-tac-toe with minimax.** This is `Week0/tictactoe/tictactoe.py`.
  - Board functions give whose turn it is, the open squares, the board after a move, the winner,
    the end of the game and its utility.
  - `max_value`, `min_value` and `minimax` do the game-tree search.

Each operation is a pure function or a method over immutable values. Python's mutation in place
becomes returning the updated value. Python exceptions become the `Err` case of `Result`.

Where the Python iterates a set or a dict, the order is arbitrary:
- a method picks elements with `:|`;
- where the order decides the answer, it is an explicit `seq` parameter. This covers
  `select_unassigned_variable`'s stable sort and the order `ac3` loads its queue in.

The model follows the code:
- `select_unassigned_variable` has no degree tie-break: ties go by dict order, and so does the
  model.
- `revise` on slots that do not cross, `ac3` draining its queue, and `order_domain_values`
  sorting are modelled as written. Each also gets a corrected version under "Findings".
- `terminal` and `utility` call the program's `winner`, which never reads a column. The
  tic-tac-toe end-of-game tests and the whole search take a `WinnerRule`. Under `AsWritten`
  they are the program's, which plays on past a column win. Under `AllLines` they are those of
  the corrected game.

Correctness is stated against a reference:
- **Crossword.** An `IsSolution` predicate: every slot filled from its domain, words distinct,
  lengths matching, crossings agreeing.
- **Minesweeper.** The board's true mine set `m`. The player is `Sound` when everything it believes
  holds in `m`.
- **Tic-tac-toe.** The game values `MaxVal`/`MinVal`, defined by a deterministic scan over the
  nine squares, under either winner rule.

The modules:

| file | module | contents |
|---|---|---|
| outcomes.dfy | Outcomes | `Option`, `Result` |
| set_card.dfy | SetCard | two cardinality lemmas |
| topology.dfy | Topology | slots, the overlap relation, neighbours |
| csp_model.dfy | CspModel | domains, assignments, the consistency conditions, `IsSolution` |
| consistency.dfy | Consistency | node consistency, `revise`, `ac3` as written, full-drain AC-3 |
| search.dfy | Search | completeness, `consistent`, variable and value ordering, `backtrack`, `solve` |
| sentences.dfy | Sentences | `Sentence` |
| minesweeper_game.dfy | Minesweeper | `nearby_mines`, `won` |
| minesweeper_ai.dfy | MinesweeperAI | the AI player |
| tictactoe.dfy | TicTacToe | board functions |
| minimax.dfy | Minimax | game values, `max_value`, `min_value`, `minimax` |

## Model

| member | source | states |
|---|---|---|
| Consistency.EnforceNodeConsistency | generate.py:96-110 | Keeps every slot. A word stays in a slot's domain exactly when its length is the slot's length. The result is node consistent, and a second pass changes nothing. |
| Consistency.NodeConsistencyKeepsSolutions | generate.py:102-110 | Filtering by length loses no solution. |
| Consistency.NodeConsistentIsIndexable | generate.py:131-135 | Node-consistent domains can be indexed at every overlap offset, so `revise`'s letter comparison cannot go out of range. |
| Consistency.Revise | generate.py:113-144 | As written, `revise` raises exactly when the two slots do not cross. Otherwise: only `x`'s domain changes; a word stays exactly when some word of `y` agrees with it at the overlap; the result is true exactly when a word was removed; afterwards the arc is consistent. |
| Consistency.ReviseArc | generate.py:113-144 | The intended `revise`: slots that do not cross are left alone and reported unrevised. Otherwise it is the same as `Revise`. |
| Consistency.ReviseKeepsSolutions | generate.py:128-143 | A solution's word for `x` always survives revision, so revising loses no solution. |
| Consistency.ReviseKeepsAllSolutions | generate.py:128-143 | Every solution kept so far is still a solution after one more revision. |
| Consistency.ReviseIdempotent | generate.py:128-144 | Revising the same arc twice: the second time removes nothing. |
| Consistency.ReviseKeepsOtherArcs | generate.py:170-175 | Revising `(x, y)` keeps every consistent arc consistent, except the arcs `(z, x)` with `z != y`, which `ac3` re-queues. `(y, x)` survives too. |
| Consistency.ListsArcsEmpty | generate.py:158-163 | The loaded queue is empty exactly when no two slots cross. |
| Consistency.Ac3 | generate.py:147-177 | As written, explicit arcs always raise. With no crossings the result is `None`. Otherwise the first queued arc `(x, y)` is revised and nothing else: a word of `x` stays exactly when some word of `y` agrees with it, the arc is then consistent, and no other domain changes. The result is `False` exactly when that revision emptied a non-empty domain. No domain grows. |
| Consistency.ReviseRaisesOnUncrossedPair | generate.py:125-130 | Two parallel slots: the as-written `revise` raises, and the intended one reports no revision. |
| Consistency.Ac3StopsAfterFirstArc | generate.py:165-177 | On two crossing slots, with the arc (across, down) queued first, the as-written `ac3` returns `True` while the arc (down, across) is still inconsistent. |
| Consistency.RequeueKeepsSupport | generate.py:170-175 | Re-queueing the arcs into a shrunk domain keeps this invariant: every arc off the queue is consistent. |
| Consistency.Ac3Drain | generate.py:147-177 | AC-3 that drains its queue. Domains only shrink and no solution is lost. Failure means some domain is empty. When every domain starts non-empty, success leaves them all non-empty. When the queue starts with every arc, or every arc left out is already consistent, success leaves every arc consistent. |
| Search.AssignmentComplete | generate.py:180-189 | True exactly when every slot of the domains is assigned. |
| Search.DistinctCard | generate.py:197-199 | An assignment has no more distinct words than slots. It has as many exactly when no word is used twice. |
| Search.NeighboursAgreeIff | generate.py:205-210 | Checking each assigned slot against its assigned neighbours is the same as checking every crossing. |
| Search.Consistent | generate.py:192-211 | True exactly when the assignment uses no word twice, every word fits its slot, and every assigned crossing agrees. |
| Search.SelectUnassignedVariable | generate.py:231-237 | Fails exactly when nothing is unassigned. Otherwise it returns an unassigned slot with the fewest remaining words, and the first such slot in dict order. |
| Search.CountDisagreeing | generate.py:223-225 | The inner count is the number of a neighbour's words that disagree with the candidate on the shared square. |
| Search.CountEliminations | generate.py:217-226 | A candidate's count is the number of (unassigned neighbour, word) pairs it rules out. |
| Search.EliminationCounts | generate.py:215-226 | Maps every candidate of the slot, and nothing else, to the number of pairs it rules out. |
| Search.OrderDomainValuesAsWritten | generate.py:214-228 | As written, always raises: `sorted` is read before the same statement binds it. |
| Search.OrderByCount | generate.py:227-228 | Lists every counted word once, in non-decreasing order of count. |
| Search.OrderDomainValues | generate.py:214-228 | Lists the slot's candidates once each, least constraining first. |
| Search.Backtrack | generate.py:240-252 | A full assignment is returned unchanged. Any other result fills every slot, agrees with the given assignment, takes each added word from its domain, and is consistent when anything was added. No result means no solution extends the given assignment. |
| Search.InitialDomains | generate.py:13-16 | Every slot starts with the whole vocabulary. |
| Search.Solve | generate.py:88-94 | A result is a solution over the vocabulary. No result means the puzzle has no solution. |
| Sentences.KnownMines | Week1/minesweeper/minesweeper.py:104-111 | All of the sentence's cells or none. Non-empty exactly when there are as many mines as cells, and there are cells. |
| Sentences.KnownSafes | Week1/minesweeper/minesweeper.py:114-121 | All of the sentence's cells or none. Non-empty exactly when the count is zero and there are cells. |
| Sentences.KnownMinesSound | Week1/minesweeper/minesweeper.py:104-111 | In a true sentence, every known mine is a mine. |
| Sentences.KnownSafesSound | Week1/minesweeper/minesweeper.py:114-121 | In a true sentence, no known safe cell is a mine. |
| Sentences.KnownMinesComplete | Week1/minesweeper/minesweeper.py:104-111 | Take a satisfiable sentence and one of its cells that is not a known mine. Some mine set makes the sentence true with that cell safe. |
| Sentences.KnownSafesComplete | Week1/minesweeper/minesweeper.py:114-121 | Take a satisfiable sentence and one of its cells that is not known safe. Some mine set makes the sentence true with that cell a mine. |
| Sentences.MarkMine | Week1/minesweeper/minesweeper.py:124-134 | The cell leaves the sentence. The count drops by one when the cell was in it; otherwise nothing changes. |
| Sentences.MarkSafe | Week1/minesweeper/minesweeper.py:138-147 | The cell leaves the sentence and the count stays. |
| Sentences.MarkMineHolds | Week1/minesweeper/minesweeper.py:124-134 | Marking a true mine keeps a true sentence true. |
| Sentences.MarkSafeHolds | Week1/minesweeper/minesweeper.py:138-147 | Marking a truly safe cell keeps a true sentence true. |
| Sentences.MarkMinesStep | Week1/minesweeper/minesweeper.py:124-134 | Marking one more mine after a set of them is the same as marking the larger set. |
| Sentences.MarkMinesHolds | Week1/minesweeper/minesweeper.py:124-134 | Marking any set of true mines keeps a true sentence true. |
| Sentences.MarkSafesHolds | Week1/minesweeper/minesweeper.py:138-147 | Marking any set of truly safe cells keeps a true sentence true. |
| Sentences.SubsetRuleHolds | Week1/minesweeper/minesweeper.py:193-197 | Let sentence `i`'s cells lie within sentence `j`'s, and both be true. Then `j`'s cells outside `i`'s hold the difference of the counts. |
| Minesweeper.NeighboursAtMostEight | Week1/minesweeper/minesweeper.py:66-76 | A cell has at most eight neighbours, all within one row and column of it. |
| Minesweeper.NearbyMines | Week1/minesweeper/minesweeper.py:55-78 | The count is the number of mines among the cell's on-board neighbours, at most eight. |
| Minesweeper.Won | Week1/minesweeper/minesweeper.py:80-84 | Won exactly when every mine is flagged and every flag is a mine. |
| MinesweeperAI.Initial | Week1/minesweeper/minesweeper.py:156-170 | A fresh player believes nothing false about any board. |
| MinesweeperAI.MarkMine | Week1/minesweeper/minesweeper.py:172-179 | The cell joins the known mines. Each sentence becomes that sentence with the mine marked: the cell leaves it, and its count drops by one if the cell was in it. The safe cells, the moves made and the number of sentences stay as they were. |
| MinesweeperAI.MarkMines | Week1/minesweeper/minesweeper.py:202-204 | Every cell of the set joins the known mines, and each sentence becomes that sentence with the whole set marked as mines. Nothing else changes. |
| MinesweeperAI.MarkSafe | Week1/minesweeper/minesweeper.py:181-188 | The cell joins the known safe cells. Each sentence becomes that sentence with the cell marked safe: the cell leaves it and its count stays. The mines, the moves made and the number of sentences stay as they were. |
| MinesweeperAI.MarkSafes | Week1/minesweeper/minesweeper.py:205-207 | Every cell of the set joins the known safe cells, and each sentence becomes that sentence with the whole set marked safe. Nothing else changes. |
| MinesweeperAI.MarkMineSound | Week1/minesweeper/minesweeper.py:172-179 | Marking a true mine keeps a sound player sound. |
| MinesweeperAI.MarkSafeSound | Week1/minesweeper/minesweeper.py:181-188 | Marking a truly safe cell keeps a sound player sound. |
| MinesweeperAI.MarkEachMineIsMarkMines | Week1/minesweeper/minesweeper.py:202-204 | Marking listed mines one at a time, in any order, marks the whole set. |
| MinesweeperAI.MarkEachSafeIsMarkSafes | Week1/minesweeper/minesweeper.py:205-207 | Marking listed safe cells one at a time, in any order, marks the whole set. |
| MinesweeperAI.MarkMinesSound | Week1/minesweeper/minesweeper.py:202-204 | Marking a set of true mines keeps a sound player sound. |
| MinesweeperAI.MarkSafesSound | Week1/minesweeper/minesweeper.py:205-207 | Marking a set of truly safe cells keeps a sound player sound. |
| MinesweeperAI.Learn | Week1/minesweeper/minesweeper.py:199-207 | A sentence with count zero puts all its cells among the known safe cells. One with as many mines as cells puts them all among the known mines. Any other sentence changes nothing. Only the sentence's cells are added, and nothing is ever removed. |
| MinesweeperAI.LearnIsSafesThenMines | Week1/minesweeper/minesweeper.py:265-271 | Step 4 marks a sentence's known safe cells, then the known mines of what remains. That is the same as learning the sentence. |
| MinesweeperAI.LearnIsMinesThenSafes | Week1/minesweeper/minesweeper.py:199-207 | `inference` marks a derived sentence's known mines, then its known safe cells. That is the same as learning the sentence. |
| MinesweeperAI.LearnSound | Week1/minesweeper/minesweeper.py:199-207 | Learning from a true sentence keeps a sound player sound. |
| MinesweeperAI.NeighbourSentence | Week1/minesweeper/minesweeper.py:234-256 | The cells are exactly the on-board neighbours of the played cell that are neither known mines nor known safe. The count plus the known mines among the neighbours is the reported count. |
| MinesweeperAI.NeighbourSentenceHolds | Week1/minesweeper/minesweeper.py:234-256 | Given a sound player and a true count, the step-3 sentence is true. Its cells are the neighbours not known either way; its count is the report less the known mines around. |
| MinesweeperAI.Observe | Week1/minesweeper/minesweeper.py:225-259 | The cell is recorded as played and as safe, and the known mines stay. Each old sentence has the cell marked safe. The neighbour sentence is appended exactly when it has cells: its cells are the unknown neighbours and its count is the report less the known mines around. |
| MinesweeperAI.ObserveSound | Week1/minesweeper/minesweeper.py:225-259 | Steps 1 to 3 keep a sound player sound when the cell is safe and the count is true. |
| MinesweeperAI.FirstIndex | Week1/minesweeper/minesweeper.py:264 | The position `list.remove` finds: an element equal to the sentence, with none before it. |
| MinesweeperAI.RemoveFirst | Week1/minesweeper/minesweeper.py:264 | `list.remove` takes out one element and adds nothing. |
| MinesweeperAI.RemoveFirstAt | Week1/minesweeper/minesweeper.py:264 | The element taken out is the first occurrence: the elements before it keep their places and those after it move down by one. |
| MinesweeperAI.RemoveFirstKeeps | Week1/minesweeper/minesweeper.py:264 | `list.remove` keeps every element that differs from the one removed. |
| MinesweeperAI.Sweep | Week1/minesweeper/minesweeper.py:262-264 | The remove-while-iterating loop keeps only sentences it was given, and never drops one that has cells. It leaves its loop variable bound to one of them whenever the list is non-empty. |
| MinesweeperAI.Step4AsWritten | Week1/minesweeper/minesweeper.py:261-271 | As written, step 4 raises exactly when the knowledge base is empty. Otherwise it learns from the sentence the loop variable ends on: that sentence's cells are all marked safe when its count is zero, all marked as mines when the count equals their number, and no other cell is marked. |
| MinesweeperAI.Step4AsWrittenSound | Week1/minesweeper/minesweeper.py:261-271 | When it does not raise, the as-written step 4 keeps a sound player sound. |
| MinesweeperAI.DropEmpty | Week1/minesweeper/minesweeper.py:262-264 | The intended removal keeps exactly the sentences with cells. |
| MinesweeperAI.ConcludeFrom | Week1/minesweeper/minesweeper.py:265-271 | Learning from the sentences from a given index on, in order, keeps the board size, the moves and the number of sentences, and only adds known mines and known safe cells. |
| MinesweeperAI.LearnKeepsCertain | Week1/minesweeper/minesweeper.py:265-271 | Learning one true sentence does not spoil what a later sentence says for sure: a count-zero sentence stays count zero, and one with as many mines as cells stays so, and the cells it loses are the ones just marked safe or as mines. |
| MinesweeperAI.ConcludeFromConcludes | Week1/minesweeper/minesweeper.py:265-271 | For a sound player, every sentence from the index on with count zero ends with all its cells known safe, and every one with as many mines as cells ends with all its cells known mines. |
| MinesweeperAI.ConcludeFromSound | Week1/minesweeper/minesweeper.py:265-271 | Learning from every sentence in turn keeps a sound player sound. |
| MinesweeperAI.Step4 | Week1/minesweeper/minesweeper.py:261-271 | The intended step 4 keeps the board size and the moves, and only adds known mines and known safe cells. |
| MinesweeperAI.Step4Concludes | Week1/minesweeper/minesweeper.py:261-271 | For a sound player, the intended step 4 marks every cell of each count-zero sentence safe, and every cell of each sentence with as many mines as cells as a mine. |
| MinesweeperAI.Step4Sound | Week1/minesweeper/minesweeper.py:261-271 | The intended step 4 keeps a sound player sound. |
| MinesweeperAI.AsWrittenDerivesNothing | Week1/minesweeper/minesweeper.py:193-207 | The as-written difference of a subset and its superset has no cells, so learning from it changes nothing. |
| MinesweeperAI.InferPairAsWritten | Week1/minesweeper/minesweeper.py:192-207 | One pair of the as-written `inference` never changes the player. |
| MinesweeperAI.InferAsWrittenIsIdentity | Week1/minesweeper/minesweeper.py:190-207 | The as-written `inference` never changes the player. |
| MinesweeperAI.SubsetRuleSound | Week1/minesweeper/minesweeper.py:193-207 | The subset rule draws only true conclusions from a sound player. |
| MinesweeperAI.InferPair | Week1/minesweeper/minesweeper.py:192-207 | One pair of `inference` keeps the board size, the moves and the number of sentences, and only adds known mines and known safe cells. |
| MinesweeperAI.InferPairConcludes | Week1/minesweeper/minesweeper.py:192-207 | Under the subset rule, a pair whose first cells do not lie within the second's changes nothing. Otherwise the second's cells outside the first are all marked safe when the counts agree, and all marked as mines when the counts differ by their number. |
| MinesweeperAI.InferPairSound | Week1/minesweeper/minesweeper.py:192-207 | One pair of the subset rule keeps a sound player sound. |
| MinesweeperAI.InferFrom | Week1/minesweeper/minesweeper.py:190-207 | Running the pairs from a given pair on, in list order, keeps the board size, the moves and the number of sentences, and only adds known mines and known safe cells. |
| MinesweeperAI.Inference | Week1/minesweeper/minesweeper.py:190-207 | `inference` over all pairs keeps the board size and the moves, and only adds known mines and known safe cells. |
| MinesweeperAI.InferSound | Week1/minesweeper/minesweeper.py:190-207 | The intended `inference` over all pairs keeps a sound player sound. |
| MinesweeperAI.AddKnowledgeAsWritten | Week1/minesweeper/minesweeper.py:209-275 | The as-written update raises exactly when the knowledge is empty after step 3. When it returns, the cell is played and known safe. |
| MinesweeperAI.AddKnowledge | Week1/minesweeper/minesweeper.py:209-275 | After the intended update the cell is played and known safe, and the board size stays. Known mines and known safe cells only grow. |
| MinesweeperAI.AddKnowledgeConcludes | Week1/minesweeper/minesweeper.py:209-275 | Told the truth about a safe cell, a sound player ends the intended update with every cell of each count-zero sentence known safe, and every cell of each sentence with as many mines as cells known as a mine. This includes the new sentence about the played cell's neighbours. |
| MinesweeperAI.AddKnowledgeAsWrittenSound | Week1/minesweeper/minesweeper.py:209-275 | When the as-written update returns, it keeps a sound player sound. |
| MinesweeperAI.AddKnowledgeSound | Week1/minesweeper/minesweeper.py:209-275 | Told the truth about a safe cell, a sound player stays sound under the intended update. |
| MinesweeperAI.MakeSafeMove | Week1/minesweeper/minesweeper.py:277-289 | Returns a known safe cell not yet played. It returns none exactly when every known safe cell has been played. |
| MinesweeperAI.AddKnowledgeAsWrittenFailsOnSingleSquare | Week1/minesweeper/minesweeper.py:261-271 | On a 1×1 board the first move makes the as-written update raise. The intended update records the move. |
| MinesweeperAI.SweepSkipsAfterRemoval | Week1/minesweeper/minesweeper.py:262-264 | Given two empty sentences, the as-written sweep keeps one; the intended removal drops both. |
| MinesweeperAI.Step4AsWrittenLearnsOnlyFromLast | Week1/minesweeper/minesweeper.py:265-271 | A sentence saying `(0, 0)` is safe, followed by another: the as-written step 4 misses `(0, 0)` and the intended one marks it. |
| MinesweeperAI.SubsetRuleFindsWhatAsWrittenMisses | Week1/minesweeper/minesweeper.py:193-196 | From `{a} = 1` and `{a, b} = 1`, the subset rule marks `b` safe. The as-written `inference` changes nothing. |
| TicTacToe.InitialState | Week0/tictactoe/tictactoe.py:11-17 | Every square is empty. |
| TicTacToe.Player | Week0/tictactoe/tictactoe.py:19-35 | X moves exactly when X has placed no more marks than O. |
| TicTacToe.Actions | Week0/tictactoe/tictactoe.py:37-49 | The moves are exactly the empty squares of the board. |
| TicTacToe.Play | Week0/tictactoe/tictactoe.py:64-65 | The chosen square gets the mark of the player to move. |
| TicTacToe.PlayFrame | Week0/tictactoe/tictactoe.py:56-65 | A move changes no other square. |
| TicTacToe.PlayFills | Week0/tictactoe/tictactoe.py:64-65 | A move fills exactly the chosen empty square, so one fewer square is open. |
| TicTacToe.Wrap | Week0/tictactoe/tictactoe.py:61-64 | Python's indexing from -3 to 2 lands on a square of the row. |
| TicTacToe.Result | Week0/tictactoe/tictactoe.py:51-71 | Raises exactly when the index is off the board or the square is taken. Otherwise the square gets the mover's mark and every other square is as before. |
| TicTacToe.FirstWinner | Week0/tictactoe/tictactoe.py:78-99 | Every answer is a mark filling a searched line. None exactly when no searched line is filled. |
| TicTacToe.FirstWinnerAppend | Week0/tictactoe/tictactoe.py:78-99 | Searching two lists of lines in a row finds the first list's winner, or failing that the second's. |
| TicTacToe.WinnerAsWrittenIgnoresColumns | Week0/tictactoe/tictactoe.py:83-87 | The as-written `winner` answers as if only rows and diagonals were lines. |
| TicTacToe.ColumnWinMissed | Week0/tictactoe/tictactoe.py:84-87 | X down the first column: the as-written `winner` sees no winner; the intended one sees X. |
| TicTacToe.Winner | Week0/tictactoe/tictactoe.py:73-99 | Every answer is a mark filling a row, column or diagonal. None exactly when no line is filled. |
| TicTacToe.WinnerBy | Week0/tictactoe/tictactoe.py:73-99 | Every answer is a mark filling a line the rule searches. None exactly when no searched line is filled. `AsWritten` searches the rows and diagonals; `AllLines` also searches the columns. |
| TicTacToe.WinnerByRule | Week0/tictactoe/tictactoe.py:73-99 | Under `AsWritten` the winner is exactly what the program's `winner` returns; under `AllLines` it is the corrected `Winner`. |
| TicTacToe.Terminal | Week0/tictactoe/tictactoe.py:101-113 | Over exactly when someone has won under the rule, or no square is empty. |
| TicTacToe.Utility | Week0/tictactoe/tictactoe.py:115-125 | Between -1 and 1. It is 1 exactly when X has won under the rule and -1 exactly when O has. |
| TicTacToe.ColumnWinPlayedOn | Week0/tictactoe/tictactoe.py:101-125 | X down the first column: the program's `terminal` is false and its `utility` 0; in the corrected game the board is over and worth 1. |
| Minimax.MaxVal | Week0/tictactoe/tictactoe.py:141-152 | The game value with X to move, under the given winner rule, is between -1 and 1. |
| Minimax.MinVal | Week0/tictactoe/tictactoe.py:127-138 | The game value with O to move, under the given winner rule, is between -1 and 1. |
| Minimax.MaxFromBound | Week0/tictactoe/tictactoe.py:147-151 | No scanned move does better for X than the scan's best. |
| Minimax.MaxFromTake | Week0/tictactoe/tictactoe.py:148-151 | An open square no worse than the rest of the scan is the scan's value. |
| Minimax.MaxFromSkip | Week0/tictactoe/tictactoe.py:148-151 | A closed square, or one worse than the rest of the scan, leaves the scan's value to the rest. |
| Minimax.MaxFromStepBound | Week0/tictactoe/tictactoe.py:148-151 | One step of the scan is at least the rest of the scan, and at least the value of an open square at that step. |
| Minimax.MaxFromAttained | Week0/tictactoe/tictactoe.py:146-151 | Some scanned move attains the scan's best, unless there is none and the bound stays -5. |
| Minimax.MinFromBound | Week0/tictactoe/tictactoe.py:133-137 | No scanned move does better for O than the scan's best. |
| Minimax.MinFromTake | Week0/tictactoe/tictactoe.py:134-137 | An open square no worse for O than the rest of the scan is the scan's value. |
| Minimax.MinFromSkip | Week0/tictactoe/tictactoe.py:134-137 | A closed square, or one worse for O than the rest of the scan, leaves the scan's value to the rest. |
| Minimax.MinFromStepBound | Week0/tictactoe/tictactoe.py:134-137 | One step of the scan is at most the rest of the scan, and at most the value of an open square at that step. |
| Minimax.MinFromAttained | Week0/tictactoe/tictactoe.py:132-137 | Some scanned move attains the scan's best, unless there is none and the bound stays 5. |
| Minimax.MaxValIsMax | Week0/tictactoe/tictactoe.py:141-152 | While play goes on, X's value is the largest value over the moves, and some move attains it. |
| Minimax.MinValIsMin | Week0/tictactoe/tictactoe.py:127-138 | While play goes on, O's value is the smallest value over the moves, and some move attains it. |
| Minimax.MaxStep | Week0/tictactoe/tictactoe.py:148-151 | Trying one more move keeps X's bound the best so far and the kept move one that attains it. |
| Minimax.MinStep | Week0/tictactoe/tictactoe.py:134-137 | Trying one more move keeps O's bound the best so far and the kept move one that attains it. |
| Minimax.MaxTry | Week0/tictactoe/tictactoe.py:147-151 | One round of `max_value`'s loop keeps that summary. |
| Minimax.MinTry | Week0/tictactoe/tictactoe.py:133-137 | One round of `min_value`'s loop keeps that summary. |
| Minimax.MaxValue | Week0/tictactoe/tictactoe.py:141-152 | Returns the game value under the rule, between -1 and 1. The move is none exactly when the game is over; otherwise it is an open square with that value. |
| Minimax.MinValue | Week0/tictactoe/tictactoe.py:127-138 | Returns the game value under the rule, between -1 and 1. The move is none exactly when the game is over; otherwise it is an open square with that value. |
| Minimax.Minimax | Week0/tictactoe/tictactoe.py:155-166 | Under `AsWritten` this is the program's `minimax`, which moves on a board won down a column. None exactly when the game is over under the rule. Otherwise it is an open square that is optimal for the player to move: no other move gives that player a better game value. |

## Left out

- `generate.py`'s `letter_grid`, `print`, `save` and `main`: output, image drawing and argument
  handling.
- The `crossword` module that parses structure and word files is not part of this model.
  - The puzzle topology is an input: slots, plus an overlap map whose missing keys are the `None`
    overlaps.
  - It is assumed well formed: overlaps relate distinct slots, fall inside both words and are
    symmetric.
- The word-length precondition on `revise`, `ac3` and `order_domain_values`:
  - They require every candidate to be long enough to index at its overlaps (`Indexable`).
  - Node consistency guarantees this.
  - Without it the source raises `IndexError`, at a point that depends on iteration order, and the
    model does not follow that.
- Search.Solve: it runs the full-drain AC-3 (`Ac3Drain`) in place of the as-written `ac3`. Like
  `solve`, it ignores AC-3's answer.
- Search.Backtrack: requires the assignment's slots to be slots of the domains. Every call from
  `solve` and from the recursion meets this.
- `Minesweeper.__init__` (random mine placement), `is_mine`, `print`, and
  `MinesweeperAI.make_random_move`: randomness and console output. The board of booleans is read
  as membership in the mine set.
- `Sentence.__str__`: console output. `__eq__` is the datatype's equality.
- Step 5 of `add_knowledge` adds no new sentences: the source only marks cells in `inference`, and
  the model does the same.
- MinesweeperAI.AddKnowledgeAsWritten: its contract gives no soundness of its own. Soundness is in
  `AddKnowledgeAsWrittenSound`.
- MinesweeperAI.InferFrom and MinesweeperAI.Inference: their contracts give only the frame and
  growth. What a pair concludes is stated per pair in `InferPairConcludes`, because each pair reads
  the sentences as the earlier pairs left them.
- MinesweeperAI.ConcludeFromConcludes, MinesweeperAI.Step4Concludes and
  MinesweeperAI.AddKnowledgeConcludes: stated for a sound player only. When the player already
  believes something false, an earlier conclusion can change a later sentence so that it no longer
  says anything for sure.
- Minimax.MaxValue and Minimax.MinValue: they return the move that attains the value; the source
  keeps the first move that strictly improves. Python's set iteration order is not modelled, so
  which of several optimal moves is kept is left open.
- `heredity.py`, `Week4/shopping.py` and `Week6/questions.py`: floating-point probability,
  file and CSV loading, and foreign libraries (nltk, sklearn).

## Findings

| source | as written | input that shows it | evidently intended | confidence | as-written member | corrected member |
|---|---|---|---|---|---|---|
| generate.py:165-177 | `return True` sits inside the `while` loop, so only the first queued arc is revised | Two slots crossing at their first letters. Across holds "ab"; down holds "ab", "cb". When the arc (across, down) is queued first, it returns `True`, and "cb" has no partner across | Drain the queue, re-queueing arcs into shrunk domains | not executed | Consistency.Ac3, Consistency.Ac3StopsAfterFirstArc | Consistency.Ac3Drain |
| generate.py:156-165 | `q` is bound only when `arcs` is `None` | any call `ac3(arcs)` with a list of arcs | Start the queue from the given arcs | not executed | Consistency.Ac3 | Consistency.Ac3Drain |
| generate.py:125-130 | `overlaps[x, y][0]` is read before the `None` test | two parallel slots that do not cross | No revision for slots that do not cross | not executed | Consistency.Revise, Consistency.ReviseRaisesOnUncrossedPair | Consistency.ReviseArc |
| generate.py:227 | the local `sorted` is read before the statement that binds it | any call of `order_domain_values` | Candidates in ascending order of the number of choices they rule out | not executed | Search.OrderDomainValuesAsWritten | Search.OrderDomainValues |
| Week1/minesweeper/minesweeper.py:193-196 | with `i ⊆ j` it forms `i.cells - j.cells`, which is always empty | knowledge `{(0,0)} = 1`, `{(0,0),(0,1)} = 1` | `j.cells - i.cells` with count `j.count - i.count`, which marks `(0,1)` safe | not executed | MinesweeperAI.InferAsWrittenIsIdentity, MinesweeperAI.SubsetRuleFindsWhatAsWrittenMisses | MinesweeperAI.Inference, MinesweeperAI.InferSound |
| Week1/minesweeper/minesweeper.py:265-271 | after the loop, only the last value of the loop variable `sentence` is learned from, and it is unbound when the list is empty | a 1×1 board's first move raises. `{(0,0)} = 0` followed by `{(0,1),(0,2)} = 1` leaves `(0,0)` unmarked | Learn from every sentence in the knowledge base | not executed | MinesweeperAI.Step4AsWritten, MinesweeperAI.AddKnowledgeAsWrittenFailsOnSingleSquare, MinesweeperAI.Step4AsWrittenLearnsOnlyFromLast | MinesweeperAI.Step4, MinesweeperAI.Step4Sound |
| Week1/minesweeper/minesweeper.py:262-264 | removing from the list while iterating over it skips the element after each removal | two empty sentences in a row: one is left | Remove every empty sentence | not executed | MinesweeperAI.Sweep, MinesweeperAI.SweepSkipsAfterRemoval | MinesweeperAI.DropEmpty, MinesweeperAI.Step4 |
| Week0/tictactoe/tictactoe.py:84-87 | the column loop indexes `board[i][0..2]`, which is row `i` again | X in all three squares of the first column, with no row or diagonal filled: no winner, so `terminal` is false and `minimax` keeps playing | Check `board[0][i]`, `board[1][i]`, `board[2][i]` | not executed | TicTacToe.WinnerAsWrittenIgnoresColumns, TicTacToe.ColumnWinMissed, TicTacToe.ColumnWinPlayedOn | TicTacToe.Winner, TicTacToe.WinnerBy |
