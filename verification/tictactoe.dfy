/** The tic-tac-toe board functions of Week0/tictactoe/tictactoe.py: whose turn it is, the open
    squares, the board after a move, the winner, the end of the game and its value. */
module TicTacToe {
  import opened Outcomes

  datatype Mark = X | O

  /** A square holds a mark or is empty (`EMPTY` is `None`). */
  type Square = Option<Mark>

  /** `(row, column)`. */
  type Pos = (int, int)

  predicate IsBoard(b: seq<seq<Square>>)
  {
    |b| == 3 && forall i :: 0 <= i < 3 ==> |b[i]| == 3
  }

  /** A board is three rows of three squares. */
  type Board = b: seq<seq<Square>> | IsBoard(b)
    witness [[None, None, None], [None, None, None], [None, None, None]]

  predicate OnBoard(p: Pos)
  {
    0 <= p.0 < 3 && 0 <= p.1 < 3
  }

  /** The square at `p`; off the board there is nothing. */
  function At(b: Board, p: Pos): Square
  {
    if OnBoard(p) then b[p.0][p.1] else None
  }

  /** `initial_state`: every square empty. */
  function InitialState(): (r: Board)
    ensures forall p :: OnBoard(p) ==> At(r, p) == None
  {
    [[None, None, None], [None, None, None], [None, None, None]]
  }

  /** The nine squares of the board. */
  const AllSquares: set<Pos> := {(0, 0), (0, 1), (0, 2), (1, 0), (1, 1), (1, 2), (2, 0), (2, 1), (2, 2)}

  lemma AllSquaresOnBoard(p: Pos)
    ensures p in AllSquares <==> OnBoard(p)
  {
  }

  /** The squares holding `m`. */
  function Marked(b: Board, m: Mark): set<Pos>
  {
    set p | p in AllSquares && At(b, p) == Some(m)
  }

  /** The empty squares: the moves available. */
  function Empty(b: Board): set<Pos>
  {
    set p | p in AllSquares && At(b, p) == None
  }

  /** X moves when it has placed no more marks than O, otherwise O. */
  function ToMove(b: Board): Mark
  {
    if |Marked(b, X)| <= |Marked(b, O)| then X else O
  }

  /** The squares holding `m` met before square `(i, j)` in a row-by-row scan. */
  ghost function ScannedMarks(b: Board, m: Mark, i: int, j: int): set<Pos>
  {
    set p | p in Marked(b, m) && (p.0 < i || (p.0 == i && p.1 < j))
  }

  lemma ScanMarkStep(b: Board, m: Mark, i: int, j: int)
    requires 0 <= i < 3 && 0 <= j < 3
    ensures ScannedMarks(b, m, i, j + 1) == ScannedMarks(b, m, i, j) + (if b[i][j] == Some(m) then {(i, j)} else {})
  {
  }

  lemma ScanMarkRow(b: Board, m: Mark, i: int)
    ensures ScannedMarks(b, m, i, 3) == ScannedMarks(b, m, i + 1, 0)
  {
  }

  /** `player`: counts the X and O marks square by square and gives the turn to X exactly when X
      has no more marks than O. */
  method Player(b: Board) returns (r: Mark)
    ensures r == X <==> |Marked(b, X)| <= |Marked(b, O)|
    ensures r == ToMove(b)
  {
    var xs, os := 0, 0;
    ghost var seenX: set<Pos> := {};
    ghost var seenO: set<Pos> := {};
    assert ScannedMarks(b, X, 0, 0) == {} && ScannedMarks(b, O, 0, 0) == {};
    var i := 0;
    while i < 3
      invariant 0 <= i <= 3
      invariant seenX == ScannedMarks(b, X, i, 0) && xs == |seenX|
      invariant seenO == ScannedMarks(b, O, i, 0) && os == |seenO|
    {
      var j := 0;
      while j < 3
        invariant 0 <= j <= 3
        invariant seenX == ScannedMarks(b, X, i, j) && xs == |seenX|
        invariant seenO == ScannedMarks(b, O, i, j) && os == |seenO|
      {
        ScanMarkStep(b, X, i, j);
        ScanMarkStep(b, O, i, j);
        if b[i][j] == Some(X) {
          xs, seenX := xs + 1, seenX + {(i, j)};
        } else if b[i][j] == Some(O) {
          os, seenO := os + 1, seenO + {(i, j)};
        }
        j := j + 1;
      }
      ScanMarkRow(b, X, i);
      ScanMarkRow(b, O, i);
      i := i + 1;
    }
    assert seenX == Marked(b, X) && seenO == Marked(b, O);
    r := if xs <= os then X else O;
  }

  /** `actions`: collects the empty squares row by row. */
  method Actions(b: Board) returns (r: set<Pos>)
    ensures forall p :: p in r <==> OnBoard(p) && At(b, p) == None
    ensures r == Empty(b)
  {
    r := {};
    var i := 0;
    while i < 3
      invariant 0 <= i <= 3
      invariant r == set p | p in Empty(b) && p.0 < i
    {
      var j := 0;
      while j < 3
        invariant 0 <= j <= 3
        invariant r == set p | p in Empty(b) && (p.0 < i || (p.0 == i && p.1 < j))
      {
        if b[i][j] == None {
          r := r + {(i, j)};
        }
        j := j + 1;
      }
      i := i + 1;
    }
    assert r == Empty(b);
  }

  /** The board after the player to move takes the empty square `a`. */
  function Play(b: Board, a: Pos): (r: Board)
    requires a in Empty(b)
    ensures At(r, a) == Some(ToMove(b))
  {
    b[a.0 := b[a.0][a.1 := Some(ToMove(b))]]
  }

  /** A move changes no other square. */
  lemma PlayFrame(b: Board, a: Pos)
    requires a in Empty(b)
    ensures forall p :: p != a ==> At(Play(b, a), p) == At(b, p)
  {
  }

  /** Every move fills exactly one empty square, so play ends after at most nine moves. */
  lemma PlayFills(b: Board, a: Pos)
    requires a in Empty(b)
    ensures Empty(Play(b, a)) == Empty(b) - {a}
    ensures |Empty(Play(b, a))| == |Empty(b)| - 1
  {
    var r := Play(b, a);
    PlayFrame(b, a);
    forall p | p in Empty(r)
      ensures p in Empty(b) - {a}
    {
      assert At(r, p) == None;
    }
    forall p | p in Empty(b) - {a}
      ensures p in Empty(r)
    {
      assert At(b, p) == None;
    }
  }

  datatype PlayError =
    | OutOfRange   // an index outside -3 .. 2 raises IndexError
    | Occupied     // the square already holds a mark

  /** Python's list indexing: -3 .. -1 count from the end, 0 .. 2 from the start. */
  function Wrap(k: int): (r: int)
    requires -3 <= k < 3
    ensures 0 <= r < 3 && (r == k || r == k + 3)
  {
    if k < 0 then k + 3 else k
  }

  /** `result`: the board after the player to move marks square `a`, which Python indexes with
      negative indices counting from the end; an index past the board raises, and so does an
      occupied square. The given board is left as it was. */
  function Result(b: Board, a: Pos): (r: Result<Board, PlayError>)
    ensures r.Err? <==> !(-3 <= a.0 < 3 && -3 <= a.1 < 3) || At(b, (Wrap(a.0), Wrap(a.1))) != None
    ensures r.Err? && -3 <= a.0 < 3 && -3 <= a.1 < 3 ==> r.error == Occupied
    ensures r.Ok? ==> var q := (Wrap(a.0), Wrap(a.1));
      && At(r.value, q) == Some(ToMove(b))
      && forall p :: p != q ==> At(r.value, p) == At(b, p)
  {
    if !(-3 <= a.0 < 3 && -3 <= a.1 < 3) then Err(OutOfRange)
    else
      var q := (Wrap(a.0), Wrap(a.1));
      if b[q.0][q.1] != None then Err(Occupied)
      else
        PlayFrame(b, q);
        Ok(Play(b, q))
  }

  /** Three squares in a line. */
  type Line = (Pos, Pos, Pos)

  const Rows: seq<Line> := [((0, 0), (0, 1), (0, 2)), ((1, 0), (1, 1), (1, 2)), ((2, 0), (2, 1), (2, 2))]
  const Columns: seq<Line> := [((0, 0), (1, 0), (2, 0)), ((0, 1), (1, 1), (2, 1)), ((0, 2), (1, 2), (2, 2))]
  const Diagonals: seq<Line> := [((0, 0), (1, 1), (2, 2)), ((0, 2), (1, 1), (2, 0))]

  /** The eight winning lines. */
  const Lines: seq<Line> := Rows + Columns + Diagonals

  /** The lines the as-written `winner` inspects: its column loop indexes `board[i][0..2]`, which
      is row `i` again. */
  const LinesAsWritten: seq<Line> := Rows + Rows + Diagonals

  /** All three squares of the line hold `m`. */
  predicate Filled(b: Board, l: Line, m: Mark)
  {
    At(b, l.0) == Some(m) && At(b, l.1) == Some(m) && At(b, l.2) == Some(m)
  }

  /** The mark of the first line, in order, whose first square is marked and whose other two
      squares hold the same mark. */
  function FirstWinner(b: Board, ls: seq<Line>): (r: Option<Mark>)
    ensures r.Some? ==> exists k :: 0 <= k < |ls| && Filled(b, ls[k], r.value)
    ensures r.None? <==> forall k, m :: 0 <= k < |ls| ==> !Filled(b, ls[k], m)
  {
    if ls == [] then None
    else
      var l := ls[0];
      if At(b, l.0) != None && At(b, l.0) == At(b, l.1) && At(b, l.2) == At(b, l.1) then
        assert Filled(b, ls[0], At(b, l.0).value);
        At(b, l.0)
      else
        var r := FirstWinner(b, ls[1..]);
        assert forall m :: !Filled(b, ls[0], m);
        assert forall k :: 1 <= k < |ls| ==> ls[k] == ls[1..][k - 1];
        r
  }

  /** Searching two lists of lines one after the other. */
  lemma {:induction false} FirstWinnerAppend(b: Board, ls: seq<Line>, ms: seq<Line>)
    ensures FirstWinner(b, ls + ms) == if FirstWinner(b, ls).Some? then FirstWinner(b, ls) else FirstWinner(b, ms)
    decreases |ls|
  {
    if ls == [] {
      assert ls + ms == ms;
    } else {
      assert (ls + ms)[1..] == ls[1..] + ms;
      FirstWinnerAppend(b, ls[1..], ms);
    }
  }

  /** `winner` as written. */
  function WinnerAsWritten(b: Board): Option<Mark>
  {
    FirstWinner(b, LinesAsWritten)
  }

  /** The as-written `winner` never looks at a column: it answers as if only the rows and the
      diagonals were lines. */
  lemma WinnerAsWrittenIgnoresColumns(b: Board)
    ensures WinnerAsWritten(b) == FirstWinner(b, Rows + Diagonals)
  {
    FirstWinnerAppend(b, Rows + Rows, Diagonals);
    FirstWinnerAppend(b, Rows, Rows);
    FirstWinnerAppend(b, Rows, Diagonals);
  }

  /** Three X marks down the first column: the as-written `winner` sees no winner, the corrected
      one sees X. */
  lemma ColumnWinMissed()
    ensures var b: Board := [[Some(X), Some(O), None], [Some(X), Some(O), None], [Some(X), None, None]];
      WinnerAsWritten(b) == None && Winner(b) == Some(X)
  {
    var b: Board := [[Some(X), Some(O), None], [Some(X), Some(O), None], [Some(X), None, None]];
    assert FirstWinner(b, Rows[2..]) == None;
    assert FirstWinner(b, Rows[1..]) == None;
    assert FirstWinner(b, Rows) == None;
    assert FirstWinner(b, Diagonals[1..]) == None;
    assert FirstWinner(b, Diagonals) == None;
    assert FirstWinner(b, Columns) == Some(X);
    WinnerAsWrittenIgnoresColumns(b);
    FirstWinnerAppend(b, Rows, Diagonals);
    FirstWinnerAppend(b, Rows + Columns, Diagonals);
    FirstWinnerAppend(b, Rows, Columns);
  }

  /** `winner` as evidently intended: the mark filling some row, column or diagonal, if any. */
  function Winner(b: Board): (r: Option<Mark>)
    ensures r.Some? ==> exists k :: 0 <= k < |Lines| && Filled(b, Lines[k], r.value)
    ensures r.None? <==> forall k, m :: 0 <= k < |Lines| ==> !Filled(b, Lines[k], m)
  {
    FirstWinner(b, Lines)
  }

  /** Which `winner` the end-of-game tests call: the program's, which never reads a column, or the
      corrected one, which reads every line. */
  datatype WinnerRule = AsWritten | AllLines

  /** The lines each rule searches. */
  function Searched(rule: WinnerRule): seq<Line>
  {
    match rule
    case AsWritten => Rows + Diagonals
    case AllLines => Lines
  }

  /** The winner under `rule`: the first searched line some mark fills, if any. */
  function WinnerBy(rule: WinnerRule, b: Board): (r: Option<Mark>)
    ensures r.Some? ==> exists k :: 0 <= k < |Searched(rule)| && Filled(b, Searched(rule)[k], r.value)
    ensures r.None? <==> forall k, m :: 0 <= k < |Searched(rule)| ==> !Filled(b, Searched(rule)[k], m)
  {
    FirstWinner(b, Searched(rule))
  }

  /** Under `AsWritten` the end-of-game tests see exactly what the program's `winner` returns, and
      under `AllLines` what the corrected `Winner` returns. */
  lemma WinnerByRule(b: Board)
    ensures WinnerBy(AsWritten, b) == WinnerAsWritten(b)
    ensures WinnerBy(AllLines, b) == Winner(b)
  {
    WinnerAsWrittenIgnoresColumns(b);
  }

  /** `terminal`: someone has won or no square is empty. */
  function Terminal(rule: WinnerRule, b: Board): (r: bool)
    ensures r <==> WinnerBy(rule, b).Some? || Empty(b) == {}
  {
    if WinnerBy(rule, b).Some? then true
    else if None in b[0] || None in b[1] || None in b[2] then
      assert Empty(b) != {} by {
        var i, j :| 0 <= i < 3 && 0 <= j < 3 && b[i][j] == None;
        assert (i, j) in Empty(b);
      }
      false
    else
      assert forall p :: p !in Empty(b);
      true
  }

  /** `utility`: 1 when X has won, -1 when O has, 0 otherwise. */
  function Utility(rule: WinnerRule, b: Board): (r: int)
    ensures -1 <= r <= 1
    ensures r == 1 <==> WinnerBy(rule, b) == Some(X)
    ensures r == -1 <==> WinnerBy(rule, b) == Some(O)
  {
    match WinnerBy(rule, b)
    case Some(X) => 1
    case Some(O) => -1
    case None => 0
  }

  /** On the board of `ColumnWinMissed` the program plays on: its `terminal` is false and its
      `utility` is 0, where the corrected game is over and won by X. */
  lemma ColumnWinPlayedOn()
    ensures var b: Board := [[Some(X), Some(O), None], [Some(X), Some(O), None], [Some(X), None, None]];
      && !Terminal(AsWritten, b) && Utility(AsWritten, b) == 0
      && Terminal(AllLines, b) && Utility(AllLines, b) == 1
  {
    var b: Board := [[Some(X), Some(O), None], [Some(X), Some(O), None], [Some(X), None, None]];
    ColumnWinMissed();
    WinnerByRule(b);
  }
}
