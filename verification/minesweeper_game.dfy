/** The `Minesweeper` board of Week1/minesweeper/minesweeper.py: its size, its mines and the mines
    the player has flagged. The board of booleans the class keeps is true exactly at the mines, so
    the model reads a square of it as membership in `mines`. */
module Minesweeper {
  import opened Sentences
  import SetCard

  datatype Game = Game(height: int, width: int, mines: set<Cell>, minesFound: set<Cell>)

  /** The cell lies on a board of the given size. */
  predicate InBounds(height: int, width: int, c: Cell)
  {
    0 <= c.0 < height && 0 <= c.1 < width
  }

  /** The cells within one row and one column of `c`, other than `c`, that lie on the board. */
  function Neighbours(height: int, width: int, c: Cell): set<Cell>
  {
    set i, j | c.0 - 1 <= i <= c.0 + 1 && c.1 - 1 <= j <= c.1 + 1 && (i, j) != c && InBounds(height, width, (i, j)) :: (i, j)
  }

  /** The eight cells around `c`. */
  function Ring(c: Cell): set<Cell>
  {
    var (i, j) := c;
    {(i - 1, j - 1), (i - 1, j), (i - 1, j + 1), (i, j - 1), (i, j + 1), (i + 1, j - 1), (i + 1, j), (i + 1, j + 1)}
  }

  /** A cell has at most eight neighbours. */
  lemma NeighboursAtMostEight(height: int, width: int, c: Cell)
    ensures Neighbours(height, width, c) <= Ring(c)
    ensures |Neighbours(height, width, c)| <= 8
  {
    var (i, j) := c;
    var ring := Ring(c);
    assert |{(i - 1, j - 1), (i - 1, j)}| == 2;
    assert |{(i - 1, j - 1), (i - 1, j), (i - 1, j + 1)}| == 3;
    assert |{(i - 1, j - 1), (i - 1, j), (i - 1, j + 1), (i, j - 1)}| == 4;
    assert |{(i - 1, j - 1), (i - 1, j), (i - 1, j + 1), (i, j - 1), (i, j + 1)}| == 5;
    assert |{(i - 1, j - 1), (i - 1, j), (i - 1, j + 1), (i, j - 1), (i, j + 1), (i + 1, j - 1)}| == 6;
    assert |{(i - 1, j - 1), (i - 1, j), (i - 1, j + 1), (i, j - 1), (i, j + 1), (i + 1, j - 1), (i + 1, j)}| == 7;
    assert |ring| == 8;
    SetCard.SubsetCard(Neighbours(height, width, c), ring);
  }

  /** The neighbouring mines met before square `(i, j)` in a row-by-row scan. */
  ghost function Scanned(g: Game, c: Cell, i: int, j: int): set<Cell>
  {
    set x | x in Neighbours(g.height, g.width, c) * g.mines && (x.0 < i || (x.0 == i && x.1 < j))
  }

  /** Scanning one more square of the window adds it exactly when it is a neighbouring mine. */
  lemma ScanStep(g: Game, c: Cell, i: int, j: int)
    requires c.0 - 1 <= i <= c.0 + 1 && c.1 - 1 <= j <= c.1 + 1
    ensures Scanned(g, c, i, j + 1) ==
      Scanned(g, c, i, j) + (if (i, j) != c && InBounds(g.height, g.width, (i, j)) && (i, j) in g.mines then {(i, j)} else {})
  {
  }

  /** The end of one row of the window is the start of the next. */
  lemma ScanRow(g: Game, c: Cell, i: int)
    ensures Scanned(g, c, i, c.1 + 2) == Scanned(g, c, i + 1, c.1 - 1)
  {
  }

  /** `nearby_mines`: scans the three rows and three columns around the cell, skipping the cell
      itself and squares off the board, and counts the mines. The count is the number of mines
      among the cell's neighbours, at most eight. */
  method NearbyMines(g: Game, c: Cell) returns (count: nat)
    ensures count == |Neighbours(g.height, g.width, c) * g.mines|
    ensures count <= 8
  {
    count := 0;
    ghost var seen: set<Cell> := {};
    var i := c.0 - 1;
    assert Scanned(g, c, i, c.1 - 1) == {};
    while i < c.0 + 2
      invariant c.0 - 1 <= i <= c.0 + 2
      invariant seen == Scanned(g, c, i, c.1 - 1) && count == |seen|
    {
      var j := c.1 - 1;
      while j < c.1 + 2
        invariant c.1 - 1 <= j <= c.1 + 2
        invariant seen == Scanned(g, c, i, j) && count == |seen|
      {
        ScanStep(g, c, i, j);
        if (i, j) != c && 0 <= i < g.height && 0 <= j < g.width && (i, j) in g.mines {
          count, seen := count + 1, seen + {(i, j)};
        }
        j := j + 1;
      }
      ScanRow(g, c, i);
      i := i + 1;
    }
    assert seen == Neighbours(g.height, g.width, c) * g.mines;
    NeighboursAtMostEight(g.height, g.width, c);
    SetCard.SubsetCard(seen, Neighbours(g.height, g.width, c));
  }

  /** `won`: the flagged cells are exactly the mines. */
  function Won(g: Game): (r: bool)
    ensures r <==> (g.mines <= g.minesFound && g.minesFound <= g.mines)
  {
    g.minesFound == g.mines
  }
}
