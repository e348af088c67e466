/** The `MinesweeperAI` player of Week1/minesweeper/minesweeper.py: the cells it has played, the
    cells it knows to be mines or safe, and its knowledge base of sentences. The player's knowledge
    is judged against the board's true mine set: it is sound when every cell it calls a mine is
    one, every cell it calls safe is not, and every sentence it keeps holds. */
module MinesweeperAI {
  import opened Outcomes
  import opened Sentences
  import Minesweeper

  datatype AI = AI(height: int, width: int, movesMade: set<Cell>, mines: set<Cell>, safes: set<Cell>, knowledge: seq<Sentence>)

  /** The ways the as-written `add_knowledge` can fail: step 4 reads its loop variable after a loop
      over an empty knowledge base. */
  datatype AiError = UnboundSentence

  /** Everything the player believes is true of the mine set `m`. */
  predicate Sound(ai: AI, m: set<Cell>)
  {
    && ai.mines <= m
    && ai.safes !! m
    && forall n :: 0 <= n < |ai.knowledge| ==> Holds(ai.knowledge[n], m)
  }

  /** A fresh player: nothing played, nothing known. */
  function Initial(height: int, width: int): (r: AI)
    ensures forall m :: Sound(r, m)
  {
    AI(height, width, {}, {}, {}, [])
  }

  /** `mark_mine`: the cell becomes a known mine and leaves every sentence, taking one mine with it
      from each sentence that held it. */
  function MarkMine(ai: AI, c: Cell): (r: AI)
    ensures r.mines == ai.mines + {c} && r.safes == ai.safes && r.movesMade == ai.movesMade
    ensures r.height == ai.height && r.width == ai.width && |r.knowledge| == |ai.knowledge|
    ensures forall n :: 0 <= n < |r.knowledge| ==> c !in r.knowledge[n].cells
    ensures forall n :: 0 <= n < |ai.knowledge| ==> r.knowledge[n] == Sentences.MarkMine(ai.knowledge[n], c)
  {
    ai.(mines := ai.mines + {c},
        knowledge := seq(|ai.knowledge|, n requires 0 <= n < |ai.knowledge| => Sentences.MarkMine(ai.knowledge[n], c)))
  }

  /** `mark_safe`: the cell becomes a known safe cell and leaves every sentence. */
  function MarkSafe(ai: AI, c: Cell): (r: AI)
    ensures r.safes == ai.safes + {c} && r.mines == ai.mines && r.movesMade == ai.movesMade
    ensures r.height == ai.height && r.width == ai.width && |r.knowledge| == |ai.knowledge|
    ensures forall n :: 0 <= n < |r.knowledge| ==> c !in r.knowledge[n].cells
    ensures forall n :: 0 <= n < |ai.knowledge| ==> r.knowledge[n] == Sentences.MarkSafe(ai.knowledge[n], c)
  {
    ai.(safes := ai.safes + {c},
        knowledge := seq(|ai.knowledge|, n requires 0 <= n < |ai.knowledge| => Sentences.MarkSafe(ai.knowledge[n], c)))
  }

  /** Every cell of `cs` marked as a mine at once. */
  function MarkMines(ai: AI, cs: set<Cell>): (r: AI)
    ensures r.mines == ai.mines + cs && r.safes == ai.safes && r.movesMade == ai.movesMade
    ensures r.height == ai.height && r.width == ai.width && |r.knowledge| == |ai.knowledge|
    ensures forall n :: 0 <= n < |r.knowledge| ==> r.knowledge[n].cells == ai.knowledge[n].cells - cs
    ensures forall n :: 0 <= n < |ai.knowledge| ==> r.knowledge[n] == Sentences.MarkMines(ai.knowledge[n], cs)
  {
    ai.(mines := ai.mines + cs,
        knowledge := seq(|ai.knowledge|, n requires 0 <= n < |ai.knowledge| => Sentences.MarkMines(ai.knowledge[n], cs)))
  }

  /** Every cell of `cs` marked as safe at once. */
  function MarkSafes(ai: AI, cs: set<Cell>): (r: AI)
    ensures r.safes == ai.safes + cs && r.mines == ai.mines && r.movesMade == ai.movesMade
    ensures r.height == ai.height && r.width == ai.width && |r.knowledge| == |ai.knowledge|
    ensures forall n :: 0 <= n < |r.knowledge| ==> r.knowledge[n].cells == ai.knowledge[n].cells - cs
    ensures forall n :: 0 <= n < |ai.knowledge| ==> r.knowledge[n] == Sentences.MarkSafes(ai.knowledge[n], cs)
  {
    ai.(safes := ai.safes + cs,
        knowledge := seq(|ai.knowledge|, n requires 0 <= n < |ai.knowledge| => Sentences.MarkSafes(ai.knowledge[n], cs)))
  }

  /** The loop `for mine in mines: self.mark_mine(mine)`, over the cells in the order listed. */
  function MarkEachMine(ai: AI, cs: seq<Cell>): AI
  {
    if cs == [] then ai else MarkMine(MarkEachMine(ai, cs[..|cs| - 1]), cs[|cs| - 1])
  }

  /** The loop `for safe in safes: self.mark_safe(safe)`, over the cells in the order listed. */
  function MarkEachSafe(ai: AI, cs: seq<Cell>): AI
  {
    if cs == [] then ai else MarkSafe(MarkEachSafe(ai, cs[..|cs| - 1]), cs[|cs| - 1])
  }

  /** Marking one more mine after a set of them is marking the larger set. */
  lemma MarkMinesStep(ai: AI, cs: set<Cell>, c: Cell)
    ensures MarkMine(MarkMines(ai, cs), c) == MarkMines(ai, cs + {c})
  {
    var a := MarkMine(MarkMines(ai, cs), c);
    var b := MarkMines(ai, cs + {c});
    forall n | 0 <= n < |ai.knowledge|
      ensures a.knowledge[n] == b.knowledge[n]
    {
      Sentences.MarkMinesStep(ai.knowledge[n], cs, c);
    }
  }

  /** Marking one more safe cell after a set of them is marking the larger set. */
  lemma MarkSafesStep(ai: AI, cs: set<Cell>, c: Cell)
    ensures MarkSafe(MarkSafes(ai, cs), c) == MarkSafes(ai, cs + {c})
  {
    var a := MarkSafe(MarkSafes(ai, cs), c);
    var b := MarkSafes(ai, cs + {c});
    forall n | 0 <= n < |ai.knowledge|
      ensures a.knowledge[n] == b.knowledge[n]
    {
      Sentences.MarkSafesStep(ai.knowledge[n], cs, c);
    }
  }

  /** Marking no mines changes nothing. */
  lemma MarkNoMines(ai: AI)
    ensures MarkMines(ai, {}) == ai
  {
    assert MarkMines(ai, {}).knowledge == ai.knowledge;
  }

  /** Marking no safe cells changes nothing. */
  lemma MarkNoSafes(ai: AI)
    ensures MarkSafes(ai, {}) == ai
  {
    forall n | 0 <= n < |ai.knowledge|
      ensures MarkSafes(ai, {}).knowledge[n] == ai.knowledge[n]
    {
      assert ai.knowledge[n].cells - {} == ai.knowledge[n].cells;
    }
  }

  /** The order in which the loop marks the mines does not matter: any listing of a set marks the
      set. */
  lemma {:induction false} MarkEachMineIsMarkMines(ai: AI, cs: seq<Cell>)
    ensures MarkEachMine(ai, cs) == MarkMines(ai, set c | c in cs)
    decreases |cs|
  {
    if cs == [] {
      assert (set c | c in cs) == {};
      MarkNoMines(ai);
    } else {
      var init := cs[..|cs| - 1];
      MarkEachMineIsMarkMines(ai, init);
      MarkMinesStep(ai, (set c | c in init), cs[|cs| - 1]);
      assert (set c | c in cs) == (set c | c in init) + {cs[|cs| - 1]};
    }
  }

  /** The order in which the loop marks the safe cells does not matter either. */
  lemma {:induction false} MarkEachSafeIsMarkSafes(ai: AI, cs: seq<Cell>)
    ensures MarkEachSafe(ai, cs) == MarkSafes(ai, set c | c in cs)
    decreases |cs|
  {
    if cs == [] {
      assert (set c | c in cs) == {};
      MarkNoSafes(ai);
    } else {
      var init := cs[..|cs| - 1];
      MarkEachSafeIsMarkSafes(ai, init);
      MarkSafesStep(ai, (set c | c in init), cs[|cs| - 1]);
      assert (set c | c in cs) == (set c | c in init) + {cs[|cs| - 1]};
    }
  }

  /** Marking a true mine keeps a sound player sound. */
  lemma MarkMineSound(ai: AI, c: Cell, m: set<Cell>)
    requires Sound(ai, m) && c in m
    ensures Sound(MarkMine(ai, c), m)
  {
    var r := MarkMine(ai, c);
    forall n | 0 <= n < |r.knowledge|
      ensures Holds(r.knowledge[n], m)
    {
      Sentences.MarkMineHolds(ai.knowledge[n], c, m);
    }
  }

  /** Marking a truly safe cell keeps a sound player sound. */
  lemma MarkSafeSound(ai: AI, c: Cell, m: set<Cell>)
    requires Sound(ai, m) && c !in m
    ensures Sound(MarkSafe(ai, c), m)
  {
    var r := MarkSafe(ai, c);
    forall n | 0 <= n < |r.knowledge|
      ensures Holds(r.knowledge[n], m)
    {
      Sentences.MarkSafeHolds(ai.knowledge[n], c, m);
    }
  }

  /** Marking true mines keeps a sound player sound. */
  lemma MarkMinesSound(ai: AI, cs: set<Cell>, m: set<Cell>)
    requires Sound(ai, m) && cs <= m
    ensures Sound(MarkMines(ai, cs), m)
  {
    var r := MarkMines(ai, cs);
    forall n | 0 <= n < |r.knowledge|
      ensures Holds(r.knowledge[n], m)
    {
      Sentences.MarkMinesHolds(ai.knowledge[n], cs, m);
    }
  }

  /** Marking truly safe cells keeps a sound player sound. */
  lemma MarkSafesSound(ai: AI, cs: set<Cell>, m: set<Cell>)
    requires Sound(ai, m) && cs !! m
    ensures Sound(MarkSafes(ai, cs), m)
  {
    var r := MarkSafes(ai, cs);
    forall n | 0 <= n < |r.knowledge|
      ensures Holds(r.knowledge[n], m)
    {
      Sentences.MarkSafesHolds(ai.knowledge[n], cs, m);
    }
  }

  /** What one sentence tells the player: every cell is safe when the count is zero, every cell is
      a mine when the count equals the number of cells, and otherwise nothing. */
  function Learn(ai: AI, s: Sentence): (r: AI)
    ensures r.height == ai.height && r.width == ai.width && r.movesMade == ai.movesMade
    ensures ai.mines <= r.mines && ai.safes <= r.safes && |r.knowledge| == |ai.knowledge|
    ensures s.count == 0 ==> s.cells <= r.safes
    ensures |s.cells| == s.count ==> s.cells <= r.mines
    ensures r.mines <= ai.mines + s.cells && r.safes <= ai.safes + s.cells
    ensures s.count != 0 && |s.cells| != s.count ==> r == ai
  {
    if s.count == 0 then MarkSafes(ai, s.cells)
    else if |s.cells| == s.count then MarkMines(ai, s.cells)
    else ai
  }

  /** Step 4 marks a sentence's known safe cells and then the known mines of what is left of it;
      that is learning the sentence. */
  lemma LearnIsSafesThenMines(ai: AI, s: Sentence)
    ensures Learn(ai, s) == MarkMines(MarkSafes(ai, KnownSafes(s)), KnownMines(Sentences.MarkSafes(s, KnownSafes(s))))
  {
    if s.count == 0 {
      assert Sentences.MarkSafes(s, s.cells).cells == {};
      MarkNoMines(MarkSafes(ai, s.cells));
    } else {
      MarkNoSafes(ai);
    }
  }

  /** `inference` marks a derived sentence's known mines and then its known safe cells; that is
      learning the sentence too. */
  lemma LearnIsMinesThenSafes(ai: AI, s: Sentence)
    ensures Learn(ai, s) == MarkSafes(MarkMines(ai, KnownMines(s)), KnownSafes(s))
  {
    if s.count == 0 && |s.cells| == 0 {
      assert s.cells == {};
      MarkNoMines(ai);
      MarkNoSafes(ai);
    } else if s.count == 0 {
      MarkNoMines(ai);
    } else {
      MarkNoSafes(MarkMines(ai, KnownMines(s)));
      if |s.cells| != s.count {
        MarkNoMines(ai);
      }
    }
  }

  /** Learning a true sentence keeps a sound player sound. */
  lemma LearnSound(ai: AI, s: Sentence, m: set<Cell>)
    requires Sound(ai, m) && Holds(s, m)
    ensures Sound(Learn(ai, s), m)
  {
    KnownSafesSound(s, m);
    KnownMinesSound(s, m);
    if s.count == 0 {
      MarkSafesSound(ai, s.cells, m);
    } else if |s.cells| == s.count {
      MarkMinesSound(ai, s.cells, m);
    }
  }

  /** Step 3 of `add_knowledge`: the played cell's neighbours that are not yet known either way,
      with the reported count less the neighbours already known to be mines. */
  function NeighbourSentence(ai: AI, cell: Cell, count: int): (s: Sentence)
    ensures forall c :: c in s.cells <==>
      c in Minesweeper.Neighbours(ai.height, ai.width, cell) && c !in ai.mines && c !in ai.safes
    ensures s.count + |Minesweeper.Neighbours(ai.height, ai.width, cell) * ai.mines| == count
  {
    var near := Minesweeper.Neighbours(ai.height, ai.width, cell);
    Sentence(near - ai.mines - ai.safes, count - |near * ai.mines|)
  }

  /** A true report about a sound player's board gives a true sentence. */
  lemma NeighbourSentenceHolds(ai: AI, cell: Cell, count: int, m: set<Cell>)
    requires Sound(ai, m)
    requires count == |Minesweeper.Neighbours(ai.height, ai.width, cell) * m|
    ensures Holds(NeighbourSentence(ai, cell, count), m)
  {
    var near := Minesweeper.Neighbours(ai.height, ai.width, cell);
    var s := NeighbourSentence(ai, cell, count);
    assert near * m == s.cells * m + near * ai.mines;
    SetCard.DisjointUnionCard(s.cells * m, near * ai.mines);
  }

  /** Steps 1 to 3 of `add_knowledge`: record the move, mark the cell safe, and keep the sentence
      about its neighbours when it has any cells. */
  function Observe(ai: AI, cell: Cell, count: int): (r: AI)
    ensures r.movesMade == ai.movesMade + {cell} && r.height == ai.height && r.width == ai.width
    ensures r.mines == ai.mines && r.safes == ai.safes + {cell}
    ensures |ai.knowledge| <= |r.knowledge| <= |ai.knowledge| + 1
    ensures forall n :: 0 <= n < |r.knowledge| ==> r.knowledge[n].cells != {} || n < |ai.knowledge|
    ensures forall n :: 0 <= n < |ai.knowledge| ==> r.knowledge[n] == Sentences.MarkSafe(ai.knowledge[n], cell)
    ensures var near := Minesweeper.Neighbours(ai.height, ai.width, cell);
      var s := Sentence(near - ai.mines - ai.safes, count - |near * ai.mines|);
      && (s.cells != {} ==> |r.knowledge| == |ai.knowledge| + 1 && r.knowledge[|ai.knowledge|] == s)
      && (s.cells == {} ==> |r.knowledge| == |ai.knowledge|)
  {
    var marked := MarkSafe(ai.(movesMade := ai.movesMade + {cell}), cell);
    var s := NeighbourSentence(marked, cell, count);
    if s.cells != {} then marked.(knowledge := marked.knowledge + [s]) else marked
  }

  /** Adding a true sentence keeps a sound player sound. */
  lemma AppendSound(ai: AI, s: Sentence, m: set<Cell>)
    requires Sound(ai, m) && Holds(s, m)
    ensures Sound(ai.(knowledge := ai.knowledge + [s]), m)
  {
    var r := ai.(knowledge := ai.knowledge + [s]);
    assert forall n :: 0 <= n < |ai.knowledge| ==> r.knowledge[n] == ai.knowledge[n];
  }

  /** Steps 1 to 3 keep a sound player sound when the played cell is safe and the count is true. */
  lemma ObserveSound(ai: AI, cell: Cell, count: int, m: set<Cell>)
    requires Sound(ai, m) && cell !in m
    requires count == |Minesweeper.Neighbours(ai.height, ai.width, cell) * m|
    ensures Sound(Observe(ai, cell, count), m)
  {
    var moved := ai.(movesMade := ai.movesMade + {cell});
    var marked := MarkSafe(moved, cell);
    MarkSafeSound(moved, cell, m);
    NeighbourSentenceHolds(marked, cell, count, m);
    AppendSound(marked, NeighbourSentence(marked, cell, count), m);
  }

  /** Where `list.remove` finds `s`: the index of its first occurrence. */
  function FirstIndex(ks: seq<Sentence>, s: Sentence): (k: nat)
    requires s in ks
    ensures k < |ks| && ks[k] == s
    ensures forall l :: 0 <= l < k ==> ks[l] != s
  {
    if ks[0] == s then 0 else 1 + FirstIndex(ks[1..], s)
  }

  /** `list.remove`: drops the first element equal to `s`. */
  function RemoveFirst(ks: seq<Sentence>, s: Sentence): (r: seq<Sentence>)
    requires s in ks
    ensures |r| == |ks| - 1
    ensures forall x :: x in r ==> x in ks
  {
    if ks[0] == s then ks[1..] else [ks[0]] + RemoveFirst(ks[1..], s)
  }

  /** The element `list.remove` drops is the first one equal to `s`: the elements before it stay
      where they were and the ones after it move down by one. */
  lemma {:induction false} RemoveFirstAt(ks: seq<Sentence>, s: Sentence)
    requires s in ks
    ensures forall l :: 0 <= l < FirstIndex(ks, s) ==> RemoveFirst(ks, s)[l] == ks[l]
    ensures forall l :: FirstIndex(ks, s) <= l < |ks| - 1 ==> RemoveFirst(ks, s)[l] == ks[l + 1]
    decreases |ks|
  {
    if ks[0] != s {
      RemoveFirstAt(ks[1..], s);
    }
  }

  /** `list.remove` keeps every element that differs from the one removed. */
  lemma {:induction false} RemoveFirstKeeps(ks: seq<Sentence>, s: Sentence)
    requires s in ks
    ensures forall x :: x in ks && x != s ==> x in RemoveFirst(ks, s)
    decreases |ks|
  {
    if ks[0] != s {
      RemoveFirstKeeps(ks[1..], s);
      forall x | x in ks && x != s
        ensures x in RemoveFirst(ks, s)
      {
        if x != ks[0] {
          assert x in ks[1..];
        }
      }
    }
  }

  /** The as-written loop of step 4 that removes empty sentences while iterating over the list:
      Python's list iterator walks an index forward, so the element after a removed one slides
      into the visited slot and is skipped. Returns the list left and the last sentence the loop
      variable was bound to. */
  function Sweep(ks: seq<Sentence>, k: nat, last: Option<Sentence>): (r: (seq<Sentence>, Option<Sentence>))
    ensures forall x :: x in r.0 ==> x in ks
    ensures r.1 == last || (r.1.Some? && r.1.value in ks)
    ensures k < |ks| ==> r.1.Some?
    ensures forall x :: x in ks && x.cells != {} ==> x in r.0
    decreases |ks| - k + 1
  {
    if k >= |ks| then (ks, last)
    else if ks[k].cells == {} then
      RemoveFirstKeeps(ks, ks[k]);
      Sweep(RemoveFirst(ks, ks[k]), k + 1, Some(ks[k]))
    else Sweep(ks, k + 1, Some(ks[k]))
  }

  /** Step 4 as written: after the sweep, only the sentence the loop variable was last bound to
      is learned from. On an empty knowledge base the loop variable was never bound and Python
      raises. */
  function Step4AsWritten(ai: AI): (r: Result<AI, AiError>)
    ensures r.Err? <==> ai.knowledge == []
    ensures r.Ok? ==> r.value.height == ai.height && r.value.width == ai.width && r.value.movesMade == ai.movesMade
    ensures r.Ok? ==> ai.mines <= r.value.mines && ai.safes <= r.value.safes
    ensures r.Ok? ==>
      var s := Sweep(ai.knowledge, 0, None).1.value;
      && (s.count == 0 ==> s.cells <= r.value.safes)
      && (|s.cells| == s.count ==> s.cells <= r.value.mines)
      && r.value.mines <= ai.mines + s.cells && r.value.safes <= ai.safes + s.cells
  {
    var (ks, last) := Sweep(ai.knowledge, 0, None);
    match last
    case None => Err(UnboundSentence)
    case Some(s) => Ok(Learn(ai.(knowledge := ks), s))
  }

  /** The as-written step 4 draws only true conclusions from a sound player. */
  lemma Step4AsWrittenSound(ai: AI, m: set<Cell>)
    requires Sound(ai, m) && Step4AsWritten(ai).Ok?
    ensures Sound(Step4AsWritten(ai).value, m)
  {
    var (ks, last) := Sweep(ai.knowledge, 0, None);
    forall n | 0 <= n < |ks|
      ensures Holds(ks[n], m)
    {
      assert ks[n] in ai.knowledge;
    }
    assert last.value in ai.knowledge;
    LearnSound(ai.(knowledge := ks), last.value, m);
  }

  /** The sentences with at least one cell, in order. */
  function DropEmpty(ks: seq<Sentence>): (r: seq<Sentence>)
    ensures |r| <= |ks|
    ensures forall x :: x in r <==> x in ks && x.cells != {}
  {
    if ks == [] then []
    else if ks[0].cells == {} then DropEmpty(ks[1..])
    else [ks[0]] + DropEmpty(ks[1..])
  }

  /** Learns from every sentence from index `k` on, each read as the earlier ones left it. */
  function ConcludeFrom(ai: AI, k: nat): (r: AI)
    requires k <= |ai.knowledge|
    ensures r.height == ai.height && r.width == ai.width && r.movesMade == ai.movesMade
    ensures ai.mines <= r.mines && ai.safes <= r.safes && |r.knowledge| == |ai.knowledge|
    decreases |ai.knowledge| - k
  {
    if k == |ai.knowledge| then ai else ConcludeFrom(Learn(ai, ai.knowledge[k]), k + 1)
  }

  lemma {:induction false} ConcludeFromSound(ai: AI, k: nat, m: set<Cell>)
    requires k <= |ai.knowledge| && Sound(ai, m)
    ensures Sound(ConcludeFrom(ai, k), m)
    decreases |ai.knowledge| - k
  {
    if k < |ai.knowledge| {
      LearnSound(ai, ai.knowledge[k], m);
      ConcludeFromSound(Learn(ai, ai.knowledge[k]), k + 1, m);
    }
  }

  /** What learning one true sentence does to another sentence of a sound player: a sentence of
      safe cells stays one, a sentence of mines stays one, and the cells it loses are the ones
      just marked safe, or mines, respectively. */
  lemma LearnKeepsCertain(ai: AI, s: Sentence, n: nat, m: set<Cell>)
    requires Sound(ai, m) && Holds(s, m) && n < |ai.knowledge|
    ensures var t := ai.knowledge[n];
      var a := Learn(ai, s);
      && (t.count == 0 ==> a.knowledge[n].count == 0 && t.cells - a.knowledge[n].cells <= a.safes)
      && (|t.cells| == t.count ==>
            |a.knowledge[n].cells| == a.knowledge[n].count && t.cells - a.knowledge[n].cells <= a.mines)
  {
    var t := ai.knowledge[n];
    assert Holds(t, m);
    if s.count == 0 {
      assert s.cells * m == {};
      if |t.cells| == t.count {
        SetCard.SubsetCard(t.cells * m, t.cells);
        assert t.cells * s.cells == {};
        assert t.cells - s.cells == t.cells;
      }
    } else if |s.cells| == s.count {
      SetCard.SubsetCard(s.cells * m, s.cells);
      if t.count == 0 {
        assert t.cells * m == {};
        assert t.cells * s.cells == {};
      }
      if |t.cells| == t.count {
        assert t.cells == (t.cells - s.cells) + t.cells * s.cells;
        SetCard.DisjointUnionCard(t.cells - s.cells, t.cells * s.cells);
      }
    }
  }

  /** Learning from the sentences from index `k` on marks every cell of each one that says its
      cells are all safe, or all mines, as such. */
  lemma {:induction false} ConcludeFromConcludes(ai: AI, k: nat, m: set<Cell>)
    requires k <= |ai.knowledge| && Sound(ai, m)
    ensures forall n :: k <= n < |ai.knowledge| && ai.knowledge[n].count == 0 ==>
      ai.knowledge[n].cells <= ConcludeFrom(ai, k).safes
    ensures forall n :: k <= n < |ai.knowledge| && |ai.knowledge[n].cells| == ai.knowledge[n].count ==>
      ai.knowledge[n].cells <= ConcludeFrom(ai, k).mines
    decreases |ai.knowledge| - k
  {
    if k < |ai.knowledge| {
      var s := ai.knowledge[k];
      var a := Learn(ai, s);
      LearnSound(ai, s, m);
      ConcludeFromConcludes(a, k + 1, m);
      var r := ConcludeFrom(a, k + 1);
      assert r == ConcludeFrom(ai, k);
      forall n | k < n < |ai.knowledge|
        ensures ai.knowledge[n].count == 0 ==> ai.knowledge[n].cells <= r.safes
        ensures |ai.knowledge[n].cells| == ai.knowledge[n].count ==> ai.knowledge[n].cells <= r.mines
      {
        LearnKeepsCertain(ai, s, n, m);
      }
    }
  }

  /** Step 4 as evidently intended: the empty sentences are all removed, and the player learns
      from every remaining sentence. */
  function Step4(ai: AI): (r: AI)
    ensures r.height == ai.height && r.width == ai.width && r.movesMade == ai.movesMade
    ensures ai.mines <= r.mines && ai.safes <= r.safes
  {
    ConcludeFrom(ai.(knowledge := DropEmpty(ai.knowledge)), 0)
  }

  lemma Step4Sound(ai: AI, m: set<Cell>)
    requires Sound(ai, m)
    ensures Sound(Step4(ai), m)
  {
    var ks := DropEmpty(ai.knowledge);
    forall n | 0 <= n < |ks|
      ensures Holds(ks[n], m)
    {
      assert ks[n] in ai.knowledge;
    }
    ConcludeFromSound(ai.(knowledge := ks), 0, m);
  }

  /** The corrected step 4 draws every conclusion a single sentence allows: each sentence with
      count zero has all its cells marked safe, and each sentence with as many mines as cells has
      all its cells marked as mines. */
  lemma Step4Concludes(ai: AI, m: set<Cell>)
    requires Sound(ai, m)
    ensures forall s :: s in ai.knowledge && s.count == 0 ==> s.cells <= Step4(ai).safes
    ensures forall s :: s in ai.knowledge && |s.cells| == s.count ==> s.cells <= Step4(ai).mines
  {
    var ks := DropEmpty(ai.knowledge);
    var a := ai.(knowledge := ks);
    forall n | 0 <= n < |ks|
      ensures Holds(ks[n], m)
    {
      assert ks[n] in ai.knowledge;
    }
    ConcludeFromConcludes(a, 0, m);
    forall s | s in ai.knowledge && s.cells != {}
      ensures s.count == 0 ==> s.cells <= Step4(ai).safes
      ensures |s.cells| == s.count ==> s.cells <= Step4(ai).mines
    {
      assert s in ks;
      var n :| 0 <= n < |ks| && ks[n] == s;
    }
  }

  /** Which difference `inference` forms from two sentences `i` and `j` when the cells of `i` lie
      within those of `j`. */
  datatype SubsetRule =
    | LeftMinusRight   // as written: the cells of `i` outside `j`, which are none
    | RightMinusLeft   // the subset rule: the cells of `j` outside `i`

  function Derive(rule: SubsetRule, i: Sentence, j: Sentence): Sentence
  {
    match rule
    case LeftMinusRight => Sentence(i.cells - j.cells, i.count - j.count)
    case RightMinusLeft => Sentence(j.cells - i.cells, j.count - i.count)
  }

  /** One pair of `inference`: what the player learns from sentences `i` and `j` when the cells of
      `i` lie within those of `j`. */
  function InferPair(rule: SubsetRule, ai: AI, i: nat, j: nat): (r: AI)
    requires i < |ai.knowledge| && j < |ai.knowledge|
    ensures r.height == ai.height && r.width == ai.width && r.movesMade == ai.movesMade
    ensures ai.mines <= r.mines && ai.safes <= r.safes && |r.knowledge| == |ai.knowledge|
  {
    var si := ai.knowledge[i];
    var sj := ai.knowledge[j];
    if si.cells <= sj.cells then Learn(ai, Derive(rule, si, sj)) else ai
  }

  /** What one pair of the subset rule concludes: nothing unless the cells of `i` lie within those
      of `j`; then the cells of `j` outside `i` are all safe when the two counts agree, and all
      mines when the counts differ by their number. */
  lemma InferPairConcludes(ai: AI, i: nat, j: nat)
    requires i < |ai.knowledge| && j < |ai.knowledge|
    ensures var si := ai.knowledge[i];
      var sj := ai.knowledge[j];
      var r := InferPair(RightMinusLeft, ai, i, j);
      && (!(si.cells <= sj.cells) ==> r == ai)
      && (si.cells <= sj.cells && sj.count == si.count ==> sj.cells - si.cells <= r.safes)
      && (si.cells <= sj.cells && |sj.cells - si.cells| == sj.count - si.count ==> sj.cells - si.cells <= r.mines)
  {
  }

  /** `inference`: for every pair of sentences `(i, j)`, in list order and each read as the pairs
      before it left it, a sentence derived when the cells of `i` lie within those of `j`. */
  function InferFrom(rule: SubsetRule, ai: AI, i: nat, j: nat): (r: AI)
    requires i <= |ai.knowledge| && j <= |ai.knowledge|
    ensures r.height == ai.height && r.width == ai.width && r.movesMade == ai.movesMade
    ensures ai.mines <= r.mines && ai.safes <= r.safes && |r.knowledge| == |ai.knowledge|
    decreases |ai.knowledge| - i, |ai.knowledge| - j
  {
    if i == |ai.knowledge| then ai
    else if j == |ai.knowledge| then InferFrom(rule, ai, i + 1, 0)
    else InferFrom(rule, InferPair(rule, ai, i, j), i, j + 1)
  }

  function Inference(rule: SubsetRule, ai: AI): (r: AI)
    ensures r.height == ai.height && r.width == ai.width && r.movesMade == ai.movesMade
    ensures ai.mines <= r.mines && ai.safes <= r.safes
  {
    InferFrom(rule, ai, 0, 0)
  }

  /** The as-written difference of a subset and its superset has no cells, so it names no mine
      and no safe cell. */
  lemma AsWrittenDerivesNothing(ai: AI, i: Sentence, j: Sentence)
    requires i.cells <= j.cells
    ensures Learn(ai, Derive(LeftMinusRight, i, j)) == ai
  {
    assert Derive(LeftMinusRight, i, j).cells == {};
    MarkNoSafes(ai);
  }

  /** One pair of the as-written `inference` changes nothing. */
  lemma InferPairAsWritten(ai: AI, i: nat, j: nat)
    requires i < |ai.knowledge| && j < |ai.knowledge|
    ensures InferPair(LeftMinusRight, ai, i, j) == ai
  {
    var si := ai.knowledge[i];
    var sj := ai.knowledge[j];
    if si.cells <= sj.cells {
      AsWrittenDerivesNothing(ai, si, sj);
    }
  }

  /** The as-written `inference` never changes the player. */
  lemma {:induction false} InferAsWrittenIsIdentity(ai: AI, i: nat, j: nat)
    requires i <= |ai.knowledge| && j <= |ai.knowledge|
    ensures InferFrom(LeftMinusRight, ai, i, j) == ai
    decreases |ai.knowledge| - i, |ai.knowledge| - j
  {
    if i == |ai.knowledge| {
    } else if j == |ai.knowledge| {
      InferAsWrittenIsIdentity(ai, i + 1, 0);
    } else {
      InferPairAsWritten(ai, i, j);
      InferAsWrittenIsIdentity(ai, i, j + 1);
    }
  }

  /** The subset rule draws only true conclusions from a sound player. */
  lemma SubsetRuleSound(ai: AI, i: Sentence, j: Sentence, m: set<Cell>)
    requires Sound(ai, m) && Holds(i, m) && Holds(j, m) && i.cells <= j.cells
    ensures Sound(Learn(ai, Derive(RightMinusLeft, i, j)), m)
  {
    SubsetRuleHolds(i, j, m);
    LearnSound(ai, Derive(RightMinusLeft, i, j), m);
  }

  /** One pair of the subset rule keeps a sound player sound. */
  lemma InferPairSound(ai: AI, i: nat, j: nat, m: set<Cell>)
    requires i < |ai.knowledge| && j < |ai.knowledge| && Sound(ai, m)
    ensures Sound(InferPair(RightMinusLeft, ai, i, j), m)
  {
    var si := ai.knowledge[i];
    var sj := ai.knowledge[j];
    if si.cells <= sj.cells {
      SubsetRuleSound(ai, si, sj, m);
    }
  }

  /** The corrected `inference` keeps a sound player sound, pair after pair. */
  lemma {:induction false} InferSound(ai: AI, i: nat, j: nat, m: set<Cell>)
    requires i <= |ai.knowledge| && j <= |ai.knowledge| && Sound(ai, m)
    ensures Sound(InferFrom(RightMinusLeft, ai, i, j), m)
    decreases |ai.knowledge| - i, |ai.knowledge| - j
  {
    if i == |ai.knowledge| {
    } else if j == |ai.knowledge| {
      InferSound(ai, i + 1, 0, m);
    } else {
      InferPairSound(ai, i, j, m);
      InferSound(InferPair(RightMinusLeft, ai, i, j), i, j + 1, m);
    }
  }

  /** `add_knowledge` as written: steps 1 to 3, the as-written step 4, then the as-written
      inference. */
  function AddKnowledgeAsWritten(ai: AI, cell: Cell, count: int): (r: Result<AI, AiError>)
    ensures r.Err? <==> Observe(ai, cell, count).knowledge == []
    ensures r.Ok? ==> r.value.movesMade == ai.movesMade + {cell} && cell in r.value.safes
  {
    match Step4AsWritten(Observe(ai, cell, count))
    case Err(e) => Err(e)
    case Ok(a) => Ok(Inference(LeftMinusRight, a))
  }

  /** `add_knowledge` as evidently intended: steps 1 to 3, the corrected step 4, then inference by
      the subset rule. */
  function AddKnowledge(ai: AI, cell: Cell, count: int): (r: AI)
    ensures r.movesMade == ai.movesMade + {cell} && cell in r.safes
    ensures ai.mines <= r.mines && ai.safes <= r.safes
    ensures r.height == ai.height && r.width == ai.width
  {
    Inference(RightMinusLeft, Step4(Observe(ai, cell, count)))
  }

  /** The as-written update, when it returns, keeps a sound player sound. */
  lemma AddKnowledgeAsWrittenSound(ai: AI, cell: Cell, count: int, m: set<Cell>)
    requires Sound(ai, m) && cell !in m
    requires count == |Minesweeper.Neighbours(ai.height, ai.width, cell) * m|
    requires AddKnowledgeAsWritten(ai, cell, count).Ok?
    ensures Sound(AddKnowledgeAsWritten(ai, cell, count).value, m)
  {
    var o := Observe(ai, cell, count);
    ObserveSound(ai, cell, count, m);
    Step4AsWrittenSound(o, m);
    InferAsWrittenIsIdentity(Step4AsWritten(o).value, 0, 0);
  }

  /** The main guarantee: told the truth about a safe cell, a sound player stays sound — every cell
      it will ever call a mine is one and every cell it will call safe is not. */
  lemma AddKnowledgeSound(ai: AI, cell: Cell, count: int, m: set<Cell>)
    requires Sound(ai, m) && cell !in m
    requires count == |Minesweeper.Neighbours(ai.height, ai.width, cell) * m|
    ensures Sound(AddKnowledge(ai, cell, count), m)
  {
    var o := Observe(ai, cell, count);
    ObserveSound(ai, cell, count, m);
    Step4Sound(o, m);
    InferSound(Step4(o), 0, 0, m);
  }

  /** The corrected update draws every conclusion a single sentence allows: after steps 1 to 3,
      including the new sentence about the played cell's neighbours, each sentence with count zero
      has its cells marked safe and each sentence with as many mines as cells has them marked as
      mines. */
  lemma AddKnowledgeConcludes(ai: AI, cell: Cell, count: int, m: set<Cell>)
    requires Sound(ai, m) && cell !in m
    requires count == |Minesweeper.Neighbours(ai.height, ai.width, cell) * m|
    ensures var o := Observe(ai, cell, count);
      forall s :: s in o.knowledge && s.count == 0 ==> s.cells <= AddKnowledge(ai, cell, count).safes
    ensures var o := Observe(ai, cell, count);
      forall s :: s in o.knowledge && |s.cells| == s.count ==> s.cells <= AddKnowledge(ai, cell, count).mines
  {
    ObserveSound(ai, cell, count, m);
    Step4Concludes(Observe(ai, cell, count), m);
  }

  /** `make_safe_move`: some known safe cell not yet played, or none when there is no such cell. */
  method MakeSafeMove(ai: AI) returns (r: Option<Cell>)
    ensures r.None? <==> ai.safes <= ai.movesMade
    ensures r.Some? ==> r.value in ai.safes && r.value !in ai.movesMade
  {
    if ai.safes - ai.movesMade == {} {
      assert forall c :: c in ai.safes ==> c in ai.safes - ai.movesMade || c in ai.movesMade;
      r := None;
    } else {
      var c :| c in ai.safes - ai.movesMade;
      r := Some(c);
    }
  }

  /** On a board of a single square the first move has no neighbours, so no sentence is added,
      the knowledge base stays empty and the as-written step 4 raises; the corrected update simply
      records the move. */
  lemma AddKnowledgeAsWrittenFailsOnSingleSquare()
    ensures AddKnowledgeAsWritten(Initial(1, 1), (0, 0), 0) == Err(UnboundSentence)
    ensures AddKnowledge(Initial(1, 1), (0, 0), 0).safes == {(0, 0)}
  {
    var near := Minesweeper.Neighbours(1, 1, (0, 0));
    assert forall x :: x !in near;
    assert near == {};
    var o := Observe(Initial(1, 1), (0, 0), 0);
    assert o.knowledge == [];
    assert Step4(o) == o;
  }

  /** Two empty sentences in a row: removing the first slides the second into the visited slot,
      so the as-written sweep leaves it in place; the corrected removal drops both. */
  lemma SweepSkipsAfterRemoval()
    ensures Sweep([Sentence({}, 0), Sentence({}, 0)], 0, None).0 == [Sentence({}, 0)]
    ensures DropEmpty([Sentence({}, 0), Sentence({}, 0)]) == []
  {
    var e := Sentence({}, 0);
    assert RemoveFirst([e, e], e) == [e];
  }

  /** The as-written step 4 learns only from the last sentence: a sentence saying that `(0, 0)`
      is safe, followed by one saying nothing certain, leaves `(0, 0)` unmarked; the corrected step
      marks it safe. */
  lemma Step4AsWrittenLearnsOnlyFromLast()
    ensures var ai := AI(1, 3, {}, {}, {}, [Sentence({(0, 0)}, 0), Sentence({(0, 1), (0, 2)}, 1)]);
      && Step4AsWritten(ai).Ok? && (0, 0) !in Step4AsWritten(ai).value.safes
      && (0, 0) in Step4(ai).safes
  {
    var ai := AI(1, 3, {}, {}, {}, [Sentence({(0, 0)}, 0), Sentence({(0, 1), (0, 2)}, 1)]);
    var b := Sentence({(0, 1), (0, 2)}, 1);
    assert |b.cells| == 2;
    assert Sweep(ai.knowledge, 0, None) == (ai.knowledge, Some(b));
    assert DropEmpty(ai.knowledge) == ai.knowledge;
    var first := Learn(ai, ai.knowledge[0]);
    assert (0, 0) in first.safes;
  }

  /** `{a} = 1` and `{a, b} = 1` together say that `b` is safe: the subset rule finds it, the
      as-written difference does not. */
  lemma SubsetRuleFindsWhatAsWrittenMisses()
    ensures var ai := AI(1, 2, {}, {}, {}, [Sentence({(0, 0)}, 1), Sentence({(0, 0), (0, 1)}, 1)]);
      && (0, 1) in Inference(RightMinusLeft, ai).safes
      && Inference(LeftMinusRight, ai) == ai
  {
    var ai := AI(1, 2, {}, {}, {}, [Sentence({(0, 0)}, 1), Sentence({(0, 0), (0, 1)}, 1)]);
    InferAsWrittenIsIdentity(ai, 0, 0);
    var i := ai.knowledge[0];
    var j := ai.knowledge[1];
    assert i.cells <= j.cells;
    assert Derive(RightMinusLeft, i, i).cells == {};
    MarkNoSafes(ai);
    assert Derive(RightMinusLeft, i, j) == Sentence({(0, 1)}, 0);
    var learned := Learn(ai, Derive(RightMinusLeft, i, j));
    assert (0, 1) in learned.safes;
    assert InferFrom(RightMinusLeft, ai, 0, 0) == InferFrom(RightMinusLeft, ai, 0, 1);
    assert InferFrom(RightMinusLeft, ai, 0, 1) == InferFrom(RightMinusLeft, learned, 0, 2);
  }
}
