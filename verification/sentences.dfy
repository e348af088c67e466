/** The `Sentence` of the Minesweeper AI in Week1/minesweeper/minesweeper.py: a set of cells and
    the number of mines among them. A sentence is read against the true mine set of the board:
    it holds when exactly `count` of its cells are mines. */
module Sentences {
  import SetCard

  /** A board cell, `(row, column)`. */
  type Cell = (int, int)

  /** Two sentences are equal when their cells and counts are, as `__eq__` defines. */
  datatype Sentence = Sentence(cells: set<Cell>, count: int)

  /** The sentence is true of the mine set `mines`. */
  predicate Holds(s: Sentence, mines: set<Cell>)
  {
    |s.cells * mines| == s.count
  }

  /** Some mine set makes the sentence true: the count lies between 0 and the number of cells. */
  predicate Satisfiable(s: Sentence)
  {
    0 <= s.count <= |s.cells|
  }

  /** `known_mines`: every cell, when there are as many mines as cells; otherwise none. */
  function KnownMines(s: Sentence): (r: set<Cell>)
    ensures r <= s.cells
    ensures r != {} ==> r == s.cells
    ensures r != {} <==> |s.cells| == s.count && s.cells != {}
  {
    if |s.cells| == s.count then s.cells else {}
  }

  /** `known_safes`: every cell, when the count is zero; otherwise none. */
  function KnownSafes(s: Sentence): (r: set<Cell>)
    ensures r <= s.cells
    ensures r != {} ==> r == s.cells
    ensures r != {} <==> s.count == 0 && s.cells != {}
  {
    if s.count == 0 then s.cells else {}
  }

  /** `mark_mine`: the cell leaves the sentence and takes one mine with it; a cell outside the
      sentence changes nothing. */
  function MarkMine(s: Sentence, c: Cell): (r: Sentence)
    ensures r.cells == s.cells - {c} && c !in r.cells
    ensures c in s.cells ==> r.count == s.count - 1
    ensures c !in s.cells ==> r == s
  {
    if c in s.cells then Sentence(s.cells - {c}, s.count - 1) else s
  }

  /** `mark_safe`: the cell leaves the sentence and the count stays. */
  function MarkSafe(s: Sentence, c: Cell): (r: Sentence)
    ensures r.cells == s.cells - {c} && c !in r.cells
    ensures r.count == s.count
    ensures c !in s.cells ==> r == s
  {
    if c in s.cells then Sentence(s.cells - {c}, s.count) else s
  }

  /** A sentence that holds tells the truth about its known mines. */
  lemma KnownMinesSound(s: Sentence, mines: set<Cell>)
    requires Holds(s, mines)
    ensures KnownMines(s) <= mines
  {
    if |s.cells| == s.count {
      SetCard.SubsetCard(s.cells * mines, s.cells);
    }
  }

  /** A sentence that holds tells the truth about its known safe cells. */
  lemma KnownSafesSound(s: Sentence, mines: set<Cell>)
    requires Holds(s, mines)
    ensures KnownSafes(s) !! mines
  {
    if s.count == 0 {
      forall c | c in s.cells
        ensures c !in mines
      {
        assert c in mines ==> c in s.cells * mines;
      }
    }
  }

  /** Some `k` cells of a set with at least `k` cells. */
  lemma {:induction false} PickCells(from: set<Cell>, k: nat) returns (t: set<Cell>)
    requires k <= |from|
    ensures t <= from && |t| == k
    decreases k
  {
    if k == 0 {
      t := {};
    } else {
      var c :| c in from;
      t := PickCells(from - {c}, k - 1);
      t := t + {c};
    }
  }

  /** `known_mines` misses no certain mine: a cell of a satisfiable sentence that it leaves out is
      safe in some mine set the sentence holds in. */
  lemma KnownMinesComplete(s: Sentence, c: Cell) returns (mines: set<Cell>)
    requires Satisfiable(s) && c in s.cells && c !in KnownMines(s)
    ensures Holds(s, mines) && c !in mines
  {
    mines := PickCells(s.cells - {c}, s.count);
    assert s.cells * mines == mines;
  }

  /** `known_safes` misses no certainly safe cell: a cell of a satisfiable sentence that it leaves
      out is a mine in some mine set the sentence holds in. */
  lemma KnownSafesComplete(s: Sentence, c: Cell) returns (mines: set<Cell>)
    requires Satisfiable(s) && c in s.cells && c !in KnownSafes(s)
    ensures Holds(s, mines) && c in mines
  {
    var t := PickCells(s.cells - {c}, s.count - 1);
    mines := t + {c};
    assert s.cells * mines == mines;
  }

  /** Marking a true mine keeps a true sentence true. */
  lemma MarkMineHolds(s: Sentence, c: Cell, mines: set<Cell>)
    requires Holds(s, mines) && c in mines
    ensures Holds(MarkMine(s, c), mines)
  {
    if c in s.cells {
      assert s.cells * mines == (s.cells - {c}) * mines + {c};
    }
  }

  /** Marking a truly safe cell keeps a true sentence true. */
  lemma MarkSafeHolds(s: Sentence, c: Cell, mines: set<Cell>)
    requires Holds(s, mines) && c !in mines
    ensures Holds(MarkSafe(s, c), mines)
  {
    assert (s.cells - {c}) * mines == s.cells * mines;
  }

  /** Marking every cell of `cs` as a mine at once: the cells leave and take their mines with them. */
  function MarkMines(s: Sentence, cs: set<Cell>): (r: Sentence)
    ensures r.cells == s.cells - cs
  {
    Sentence(s.cells - cs, s.count - |s.cells * cs|)
  }

  /** Marking every cell of `cs` as safe at once. */
  function MarkSafes(s: Sentence, cs: set<Cell>): (r: Sentence)
    ensures r.cells == s.cells - cs && r.count == s.count
  {
    Sentence(s.cells - cs, s.count)
  }

  /** Marking the cells one by one, as the loops over known mines do, reaches the same sentence. */
  lemma MarkMinesStep(s: Sentence, cs: set<Cell>, c: Cell)
    ensures MarkMine(MarkMines(s, cs), c) == MarkMines(s, cs + {c})
  {
    if c in cs {
      assert cs + {c} == cs;
    } else if c in s.cells {
      assert s.cells * (cs + {c}) == s.cells * cs + {c};
    } else {
      assert s.cells * (cs + {c}) == s.cells * cs;
    }
  }

  lemma MarkSafesStep(s: Sentence, cs: set<Cell>, c: Cell)
    ensures MarkSafe(MarkSafes(s, cs), c) == MarkSafes(s, cs + {c})
  {
  }

  /** Marking true mines keeps a true sentence true. */
  lemma MarkMinesHolds(s: Sentence, cs: set<Cell>, mines: set<Cell>)
    requires Holds(s, mines) && cs <= mines
    ensures Holds(MarkMines(s, cs), mines)
  {
    assert s.cells * mines == (s.cells - cs) * mines + s.cells * cs;
    SetCard.DisjointUnionCard((s.cells - cs) * mines, s.cells * cs);
  }

  /** Marking truly safe cells keeps a true sentence true. */
  lemma MarkSafesHolds(s: Sentence, cs: set<Cell>, mines: set<Cell>)
    requires Holds(s, mines) && cs !! mines
    ensures Holds(MarkSafes(s, cs), mines)
  {
    assert (s.cells - cs) * mines == s.cells * mines;
  }

  /** The subset rule: when the cells of `i` lie within those of `j`, the cells of `j` outside `i`
      hold the difference of the counts. */
  lemma SubsetRuleHolds(i: Sentence, j: Sentence, mines: set<Cell>)
    requires Holds(i, mines) && Holds(j, mines) && i.cells <= j.cells
    ensures Holds(Sentence(j.cells - i.cells, j.count - i.count), mines)
  {
    assert j.cells * mines == (j.cells - i.cells) * mines + i.cells * mines;
    SetCard.DisjointUnionCard((j.cells - i.cells) * mines, i.cells * mines);
  }
}
