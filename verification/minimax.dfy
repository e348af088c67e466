/** The game-tree search of Week0/tictactoe/tictactoe.py: `max_value` and `min_value` evaluate a
    board by exploring every continuation, and `minimax` picks the move that realises the value for
    the player to move. X maximises the utility and O minimises it. Every member takes the
    `WinnerRule` its end-of-game tests use: under `AsWritten` it is the program's search, which
    plays on past a column win; under `AllLines` it is the search of the corrected game. */
module Minimax {
  import opened Outcomes
  import opened TicTacToe

  function Max(x: int, y: int): int
  {
    if x < y then y else x
  }

  function Min(x: int, y: int): int
  {
    if y < x then y else x
  }

  /** The nine squares in row-major order: the order the reference values scan the moves in. */
  const Squares: seq<Pos> := [(0, 0), (0, 1), (0, 2), (1, 0), (1, 1), (1, 2), (2, 0), (2, 1), (2, 2)]

  lemma SquaresCover(a: Pos) returns (i: nat)
    requires OnBoard(a)
    ensures i < |Squares| && Squares[i] == a
  {
    i := 3 * a.0 + a.1;
  }

  /** A game still in play has an open square among `Squares`. */
  lemma OpenSquare(rule: WinnerRule, b: Board)
    requires !Terminal(rule, b)
    ensures exists i :: 0 <= i < |Squares| && Squares[i] in Empty(b)
  {
    var a :| a in Empty(b);
    var i := SquaresCover(a);
  }

  /** The reference game value with the maximiser to move: the utility of a finished game, or the
      best of the values of the moves. It is a utility, between -1 and 1. */
  ghost function MaxVal(rule: WinnerRule, b: Board): (r: int)
    ensures -1 <= r <= 1
    decreases |Empty(b)|, 1, 0
  {
    if Terminal(rule, b) then Utility(rule, b)
    else
      OpenSquare(rule, b);
      MaxFrom(rule, b, 0)
  }

  /** The reference game value with the minimiser to move, also between -1 and 1. */
  ghost function MinVal(rule: WinnerRule, b: Board): (r: int)
    ensures -1 <= r <= 1
    decreases |Empty(b)|, 1, 0
  {
    if Terminal(rule, b) then Utility(rule, b)
    else
      OpenSquare(rule, b);
      MinFrom(rule, b, 0)
  }

  /** The largest value, for the minimiser, of the boards reached by the open squares among
      `Squares[k..]`; -5, the search's starting bound, when there are none. */
  ghost function MaxFrom(rule: WinnerRule, b: Board, k: nat): (r: int)
    requires k <= |Squares|
    ensures (exists i :: k <= i < |Squares| && Squares[i] in Empty(b)) ==> -1 <= r <= 1
    ensures (forall i :: k <= i < |Squares| ==> Squares[i] !in Empty(b)) ==> r == -5
    decreases |Empty(b)|, 0, |Squares| - k
  {
    if k == |Squares| then -5
    else if Squares[k] in Empty(b) then
      PlayFills(b, Squares[k]);
      Max(MinVal(rule, Play(b, Squares[k])), MaxFrom(rule, b, k + 1))
    else MaxFrom(rule, b, k + 1)
  }

  /** The smallest value, for the maximiser, of the boards reached by the open squares among
      `Squares[k..]`; 5 when there are none. */
  ghost function MinFrom(rule: WinnerRule, b: Board, k: nat): (r: int)
    requires k <= |Squares|
    ensures (exists i :: k <= i < |Squares| && Squares[i] in Empty(b)) ==> -1 <= r <= 1
    ensures (forall i :: k <= i < |Squares| ==> Squares[i] !in Empty(b)) ==> r == 5
    decreases |Empty(b)|, 0, |Squares| - k
  {
    if k == |Squares| then 5
    else if Squares[k] in Empty(b) then
      PlayFills(b, Squares[k]);
      Min(MaxVal(rule, Play(b, Squares[k])), MinFrom(rule, b, k + 1))
    else MinFrom(rule, b, k + 1)
  }

  /** One step of the scan behind `MaxFrom` never makes its value worse for the mover. */
  lemma MaxFromStepBound(rule: WinnerRule, b: Board, k: nat)
    requires k < |Squares|
    ensures MaxFrom(rule, b, k + 1) <= MaxFrom(rule, b, k)
    ensures Squares[k] in Empty(b) ==> MinVal(rule, Play(b, Squares[k])) <= MaxFrom(rule, b, k)
  {
  }

  /** No open square scanned by `MaxFrom` has a better value than it. */
  lemma {:induction false} MaxFromBound(rule: WinnerRule, b: Board, k: nat, i: nat)
    requires k <= i < |Squares| && Squares[i] in Empty(b)
    ensures MinVal(rule, Play(b, Squares[i])) <= MaxFrom(rule, b, k)
    decreases i - k
  {
    MaxFromStepBound(rule, b, k);
    if k < i {
      MaxFromBound(rule, b, k + 1, i);
    }
  }

  /** The scan behind `MaxFrom` keeps the square at `k` when it is open and no worse than the
      rest of the scan. */
  lemma MaxFromTake(rule: WinnerRule, b: Board, k: nat)
    requires k < |Squares| && Squares[k] in Empty(b)
    requires MaxFrom(rule, b, k + 1) <= MinVal(rule, Play(b, Squares[k]))
    ensures MaxFrom(rule, b, k) == MinVal(rule, Play(b, Squares[k]))
  {
  }

  /** Otherwise the scan's value is that of the rest of the scan. */
  lemma MaxFromSkip(rule: WinnerRule, b: Board, k: nat)
    requires k < |Squares|
    requires Squares[k] in Empty(b) ==> MinVal(rule, Play(b, Squares[k])) < MaxFrom(rule, b, k + 1)
    ensures MaxFrom(rule, b, k) == MaxFrom(rule, b, k + 1)
  {
  }

  /** Some open square scanned by `MaxFrom` attains it, unless there is none and it is -5. */
  lemma {:induction false} MaxFromAttained(rule: WinnerRule, b: Board, k: nat) returns (w: Option<Pos>)
    requires k <= |Squares|
    ensures w.None? ==> MaxFrom(rule, b, k) == -5
    ensures w.Some? ==> w.value in Empty(b) && MaxFrom(rule, b, k) == MinVal(rule, Play(b, w.value))
    decreases |Squares| - k
  {
    if k == |Squares| {
      w := None;
    } else {
      var rest := MaxFromAttained(rule, b, k + 1);
      var p := Squares[k];
      if p in Empty(b) && MaxFrom(rule, b, k + 1) <= MinVal(rule, Play(b, p)) {
        MaxFromTake(rule, b, k);
        w := Some(p);
      } else {
        MaxFromSkip(rule, b, k);
        w := rest;
      }
    }
  }

  /** One step of the scan behind `MinFrom` never makes its value worse for the mover. */
  lemma MinFromStepBound(rule: WinnerRule, b: Board, k: nat)
    requires k < |Squares|
    ensures MinFrom(rule, b, k) <= MinFrom(rule, b, k + 1)
    ensures Squares[k] in Empty(b) ==> MinFrom(rule, b, k) <= MaxVal(rule, Play(b, Squares[k]))
  {
  }

  /** No open square scanned by `MinFrom` has a smaller value than it. */
  lemma {:induction false} MinFromBound(rule: WinnerRule, b: Board, k: nat, i: nat)
    requires k <= i < |Squares| && Squares[i] in Empty(b)
    ensures MinFrom(rule, b, k) <= MaxVal(rule, Play(b, Squares[i]))
    decreases i - k
  {
    MinFromStepBound(rule, b, k);
    if k < i {
      MinFromBound(rule, b, k + 1, i);
    }
  }

  /** The scan behind `MinFrom` keeps the square at `k` when it is open and no worse than the
      rest of the scan. */
  lemma MinFromTake(rule: WinnerRule, b: Board, k: nat)
    requires k < |Squares| && Squares[k] in Empty(b)
    requires MaxVal(rule, Play(b, Squares[k])) <= MinFrom(rule, b, k + 1)
    ensures MinFrom(rule, b, k) == MaxVal(rule, Play(b, Squares[k]))
  {
  }

  /** Otherwise the scan's value is that of the rest of the scan. */
  lemma MinFromSkip(rule: WinnerRule, b: Board, k: nat)
    requires k < |Squares|
    requires Squares[k] in Empty(b) ==> MinFrom(rule, b, k + 1) < MaxVal(rule, Play(b, Squares[k]))
    ensures MinFrom(rule, b, k) == MinFrom(rule, b, k + 1)
  {
  }

  /** Some open square scanned by `MinFrom` attains it, unless there is none and it is 5. */
  lemma {:induction false} MinFromAttained(rule: WinnerRule, b: Board, k: nat) returns (w: Option<Pos>)
    requires k <= |Squares|
    ensures w.None? ==> MinFrom(rule, b, k) == 5
    ensures w.Some? ==> w.value in Empty(b) && MinFrom(rule, b, k) == MaxVal(rule, Play(b, w.value))
    decreases |Squares| - k
  {
    if k == |Squares| {
      w := None;
    } else {
      var rest := MinFromAttained(rule, b, k + 1);
      var p := Squares[k];
      if p in Empty(b) && MaxVal(rule, Play(b, p)) <= MinFrom(rule, b, k + 1) {
        MinFromTake(rule, b, k);
        w := Some(p);
      } else {
        MinFromSkip(rule, b, k);
        w := rest;
      }
    }
  }

  /** On a game still in play the maximiser's value is the best value over the moves, and some move
      attains it. */
  lemma MaxValIsMax(rule: WinnerRule, b: Board) returns (w: Pos)
    requires !Terminal(rule, b)
    ensures forall a :: a in Empty(b) ==> MinVal(rule, Play(b, a)) <= MaxVal(rule, b)
    ensures w in Empty(b) && MaxVal(rule, b) == MinVal(rule, Play(b, w))
  {
    forall a | a in Empty(b)
      ensures MinVal(rule, Play(b, a)) <= MaxVal(rule, b)
    {
      var i := SquaresCover(a);
      MaxFromBound(rule, b, 0, i);
    }
    var a :| a in Empty(b);
    var i := SquaresCover(a);
    MaxFromBound(rule, b, 0, i);
    var o := MaxFromAttained(rule, b, 0);
    w := o.value;
  }

  /** On a game still in play the minimiser's value is the least value over the moves, and some
      move attains it. */
  lemma MinValIsMin(rule: WinnerRule, b: Board) returns (w: Pos)
    requires !Terminal(rule, b)
    ensures forall a :: a in Empty(b) ==> MinVal(rule, b) <= MaxVal(rule, Play(b, a))
    ensures w in Empty(b) && MinVal(rule, b) == MaxVal(rule, Play(b, w))
  {
    forall a | a in Empty(b)
      ensures MinVal(rule, b) <= MaxVal(rule, Play(b, a))
    {
      var i := SquaresCover(a);
      MinFromBound(rule, b, 0, i);
    }
    var a :| a in Empty(b);
    var i := SquaresCover(a);
    MinFromBound(rule, b, 0, i);
    var o := MinFromAttained(rule, b, 0);
    w := o.value;
  }

  /** After trying the moves `done`, the maximiser's search holds the best value among them in
      `limit` and the first move reaching it in `best`. */
  ghost predicate MaxSoFar(rule: WinnerRule, b: Board, done: set<Pos>, limit: int, best: Option<Pos>)
  {
    && done <= Empty(b)
    && (forall a :: a in done ==> MinVal(rule, Play(b, a)) <= limit)
    && (best.None? ==> done == {} && limit == -5)
    && (best.Some? ==> best.value in done && MinVal(rule, Play(b, best.value)) == limit)
  }

  /** Trying one more move keeps the maximiser's search summary right. */
  lemma MaxStep(rule: WinnerRule, b: Board, done: set<Pos>, limit: int, best: Option<Pos>, a: Pos)
    requires MaxSoFar(rule, b, done, limit, best) && a in Empty(b) && a !in done
    ensures var m := MinVal(rule, Play(b, a));
      MaxSoFar(rule, b, done + {a}, if m > limit then m else limit, if m > limit then Some(a) else best)
  {
  }

  /** After trying every move, the summary holds the game value and a move reaching it. */
  lemma MaxDone(rule: WinnerRule, b: Board, limit: int, best: Option<Pos>)
    requires !Terminal(rule, b) && MaxSoFar(rule, b, Empty(b), limit, best)
    ensures limit == MaxVal(rule, b) && best.Some?
  {
    var w := MaxValIsMax(rule, b);
  }

  /** The minimiser's counterpart of `MaxSoFar`. */
  ghost predicate MinSoFar(rule: WinnerRule, b: Board, done: set<Pos>, limit: int, best: Option<Pos>)
  {
    && done <= Empty(b)
    && (forall a :: a in done ==> limit <= MaxVal(rule, Play(b, a)))
    && (best.None? ==> done == {} && limit == 5)
    && (best.Some? ==> best.value in done && MaxVal(rule, Play(b, best.value)) == limit)
  }

  lemma MinStep(rule: WinnerRule, b: Board, done: set<Pos>, limit: int, best: Option<Pos>, a: Pos)
    requires MinSoFar(rule, b, done, limit, best) && a in Empty(b) && a !in done
    ensures var m := MaxVal(rule, Play(b, a));
      MinSoFar(rule, b, done + {a}, if m < limit then m else limit, if m < limit then Some(a) else best)
  {
  }

  lemma MinDone(rule: WinnerRule, b: Board, limit: int, best: Option<Pos>)
    requires !Terminal(rule, b) && MinSoFar(rule, b, Empty(b), limit, best)
    ensures limit == MinVal(rule, b) && best.Some?
  {
    var w := MinValIsMin(rule, b);
  }

  /** Moving one square from the untried to the tried moves. */
  lemma TryOne(e: set<Pos>, rest: set<Pos>, a: Pos)
    requires a in rest && rest <= e
    ensures (e - rest) + {a} == e - (rest - {a})
  {
  }

  /** One round of `max_value`'s loop: the move `a` is valued by the minimiser's search and kept
      when it strictly improves on the bound so far. */
  method MaxTry(rule: WinnerRule, b: Board, ghost done: set<Pos>, limit: int, best: Option<Pos>, a: Pos) returns (limit': int, best': Option<Pos>)
    requires MaxSoFar(rule, b, done, limit, best) && a in Empty(b) && a !in done
    ensures MaxSoFar(rule, b, done + {a}, limit', best')
    decreases |Empty(b)|, 0
  {
    PlayFills(b, a);
    var m, _ := MinValue(rule, Play(b, a));
    MaxStep(rule, b, done, limit, best, a);
    if m > limit {
      limit', best' := m, Some(a);
    } else {
      limit', best' := limit, best;
    }
  }

  /** `max_value`: a finished game is worth its utility and has no move; otherwise every move is
      tried, in the set's iteration order, and the first move that strictly improves on the bound so
      far is kept. The value is the game value and the move kept attains it. */
  method MaxValue(rule: WinnerRule, b: Board) returns (v: int, best: Option<Pos>)
    ensures v == MaxVal(rule, b) && -1 <= v <= 1
    ensures best.None? <==> Terminal(rule, b)
    ensures best.Some? ==> best.value in Empty(b) && MinVal(rule, Play(b, best.value)) == v
    decreases |Empty(b)|, 1
  {
    if Terminal(rule, b) {
      return Utility(rule, b), None;
    }
    var limit := -5;
    best := None;
    var rest := Actions(b);
    while rest != {}
      invariant rest <= Empty(b)
      invariant MaxSoFar(rule, b, Empty(b) - rest, limit, best)
      decreases |rest|
    {
      var a :| a in rest;
      limit, best := MaxTry(rule, b, Empty(b) - rest, limit, best, a);
      TryOne(Empty(b), rest, a);
      rest := rest - {a};
    }
    assert Empty(b) - rest == Empty(b);
    MaxDone(rule, b, limit, best);
    v := limit;
  }

  /** One round of `min_value`'s loop, the mirror image of `MaxTry`. */
  method MinTry(rule: WinnerRule, b: Board, ghost done: set<Pos>, limit: int, best: Option<Pos>, a: Pos) returns (limit': int, best': Option<Pos>)
    requires MinSoFar(rule, b, done, limit, best) && a in Empty(b) && a !in done
    ensures MinSoFar(rule, b, done + {a}, limit', best')
    decreases |Empty(b)|, 0
  {
    PlayFills(b, a);
    var m, _ := MaxValue(rule, Play(b, a));
    MinStep(rule, b, done, limit, best, a);
    if m < limit {
      limit', best' := m, Some(a);
    } else {
      limit', best' := limit, best;
    }
  }

  /** `min_value`: the mirror image of `max_value`, keeping the first move that strictly lowers
      the bound. */
  method MinValue(rule: WinnerRule, b: Board) returns (v: int, best: Option<Pos>)
    ensures v == MinVal(rule, b) && -1 <= v <= 1
    ensures best.None? <==> Terminal(rule, b)
    ensures best.Some? ==> best.value in Empty(b) && MaxVal(rule, Play(b, best.value)) == v
    decreases |Empty(b)|, 1
  {
    if Terminal(rule, b) {
      return Utility(rule, b), None;
    }
    var limit := 5;
    best := None;
    var rest := Actions(b);
    while rest != {}
      invariant rest <= Empty(b)
      invariant MinSoFar(rule, b, Empty(b) - rest, limit, best)
      decreases |rest|
    {
      var a :| a in rest;
      limit, best := MinTry(rule, b, Empty(b) - rest, limit, best, a);
      TryOne(Empty(b), rest, a);
      rest := rest - {a};
    }
    assert Empty(b) - rest == Empty(b);
    MinDone(rule, b, limit, best);
    v := limit;
  }

  /** `minimax`: no move on a finished game; otherwise an open square that is optimal for the
      player to move — no other move leads to a better game value for that player. */
  method Minimax(rule: WinnerRule, b: Board) returns (r: Option<Pos>)
    ensures r.None? <==> Terminal(rule, b)
    ensures r.Some? ==> r.value in Empty(b)
    ensures r.Some? && ToMove(b) == X ==>
      MinVal(rule, Play(b, r.value)) == MaxVal(rule, b) && forall a :: a in Empty(b) ==> MinVal(rule, Play(b, a)) <= MinVal(rule, Play(b, r.value))
    ensures r.Some? && ToMove(b) == O ==>
      MaxVal(rule, Play(b, r.value)) == MinVal(rule, b) && forall a :: a in Empty(b) ==> MaxVal(rule, Play(b, r.value)) <= MaxVal(rule, Play(b, a))
  {
    var p := Player(b);
    if Terminal(rule, b) {
      r := None;
    } else if p == X {
      var _, best := MaxValue(rule, b);
      var _ := MaxValIsMax(rule, b);
      r := best;
    } else {
      var _, best := MinValue(rule, b);
      var _ := MinValIsMin(rule, b);
      r := best;
    }
  }
}
