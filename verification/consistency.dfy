/** Node and arc consistency of `CrosswordCreator` in generate.py: length filtering, `revise` and
    `ac3`, as written, next to the full-drain AC-3 the `ac3` docstring describes. */
module Consistency {
  import opened Outcomes
  import opened Topology
  import opened CspModel
  import SetCard

  /** Exceptions the engine's Python code raises. */
  datatype CspError =
    | NoOverlap     // `overlaps[x, y]` is None (TypeError) or (x, y) is not a pair of distinct slots (KeyError)
    | UnboundQueue  // `ac3` given explicit arcs reads its queue `q` before binding it
    | UnboundSorted // `order_domain_values` calls its local `sorted` before binding it
    | NoUnassigned  // `select_unassigned_variable` takes the first of an empty list (IndexError)

  /** Removes, for every variable, the candidates whose length differs from the variable's. The
      result keeps exactly the words of the right length, so a second pass removes nothing. */
  method EnforceNodeConsistency(d: Domains) returns (r: Domains)
    ensures r.Keys == d.Keys
    ensures forall v :: v in d ==> r[v] <= d[v]
    ensures forall v, w :: v in d && w in d[v] ==> (w in r[v] <==> |w| == v.length)
    ensures NodeConsistent(r)
    ensures NodeConsistent(d) ==> r == d
  {
    r := d;
    var todo := d.Keys;
    while todo != {}
      invariant todo <= d.Keys && r.Keys == d.Keys
      invariant forall v :: v in todo ==> r[v] == d[v]
      invariant forall v :: v in d && v !in todo ==> r[v] == set w | w in d[v] && |w| == v.length
      decreases todo
    {
      var v :| v in todo;
      r := r[v := set w | w in d[v] && |w| == v.length];
      todo := todo - {v};
    }
    if NodeConsistent(d) {
      forall v | v in d
        ensures r[v] == d[v]
      {
        assert forall w :: w in d[v] ==> |w| == v.length;
      }
    }
  }

  /** Filtering by length keeps every solution: a solution's words have their slots' lengths. */
  lemma NodeConsistencyKeepsSolutions(cw: Crossword, d: Domains, r: Domains)
    requires r.Keys == d.Keys
    requires forall v, w :: v in d && w in d[v] ==> (w in r[v] <==> |w| == v.length)
    ensures KeepsSolutions(cw, d, r)
  {
    forall s | IsSolution(cw, d, s)
      ensures IsSolution(cw, r, s)
    {
      assert Within(s, r) by {
        forall v | v in s
          ensures s[v] in r[v]
        {
          assert |s[v]| == v.length;
        }
      }
    }
  }

  /** Node-consistent domains over a well-formed puzzle can be indexed at every overlap offset. */
  lemma NodeConsistentIsIndexable(cw: Crossword, d: Domains)
    requires WellFormed(cw) && d.Keys == cw.variables && NodeConsistent(d)
    ensures Indexable(cw, d)
  {
  }

  /** The outcome of revising one arc: the new domains and whether a word was removed. */
  datatype Revision = Revision(domains: Domains, revised: bool)

  /** What revising `x` against `y` at offsets `(a, b)` must achieve: only `x`'s domain changes, it
      keeps exactly its words with a partner in `y`'s domain, and `revised` reports a removal. */
  predicate Revises(d: Domains, x: Variable, y: Variable, a: nat, b: nat, rv: Revision)
    requires x in d && y in d
  {
    && rv.domains.Keys == d.Keys
    && rv.domains[x] <= d[x]
    && (forall w :: w in d[x] ==> (w in rv.domains[x] <==> HasSupport(w, a, d[y], b)))
    && (forall v :: v in d && v != x ==> rv.domains[v] == d[v])
    && (rv.revised <==> exists w :: w in d[x] && w !in rv.domains[x])
  }

  /** `revise(x, y)` as written: it reads `overlaps[x, y][0]` before testing for `None`, so a pair
      that does not cross raises instead of being a no-op. */
  function Revise(cw: Crossword, d: Domains, x: Variable, y: Variable): (r: Result<Revision, CspError>)
    requires WellFormed(cw) && Indexable(cw, d)
    ensures r.Err? <==> (x, y) !in cw.overlaps
    ensures r.Err? ==> r.error == NoOverlap
    ensures r.Ok? ==> Revises(d, x, y, cw.overlaps[(x, y)].0, cw.overlaps[(x, y)].1, r.value)
    ensures r.Ok? ==> ArcSupported(cw, r.value.domains, (x, y)) && Indexable(cw, r.value.domains)
  {
    if (x, y) !in cw.overlaps then Err(NoOverlap)
    else
      var (a, b) := cw.overlaps[(x, y)];
      var kept := set w | w in d[x] && HasSupport(w, a, d[y], b);
      Ok(Revision(d[x := kept], kept != d[x]))
  }

  /** `revise(x, y)` as its docstring and its dead `None` test intend: a pair that does not cross is
      left alone and reported as not revised. */
  function ReviseArc(cw: Crossword, d: Domains, x: Variable, y: Variable): (r: Revision)
    requires WellFormed(cw) && Indexable(cw, d)
    ensures (x, y) !in cw.overlaps ==> r == Revision(d, false)
    ensures (x, y) in cw.overlaps ==>
      Revises(d, x, y, cw.overlaps[(x, y)].0, cw.overlaps[(x, y)].1, r) && ArcSupported(cw, r.domains, (x, y))
    ensures Indexable(cw, r.domains) && forall v :: v in d ==> r.domains[v] <= d[v]
  {
    match Revise(cw, d, x, y)
    case Ok(rv) => rv
    case Err(_) => Revision(d, false)
  }

  /** Revising never loses a solution: a solution's word for `x` is supported by its word for `y`. */
  lemma {:induction false} ReviseKeepsSolutions(cw: Crossword, d: Domains, x: Variable, y: Variable, s: Assignment)
    requires WellFormed(cw) && Indexable(cw, d) && IsSolution(cw, d, s)
    ensures IsSolution(cw, ReviseArc(cw, d, x, y).domains, s)
  {
    var r := ReviseArc(cw, d, x, y).domains;
    if (x, y) in cw.overlaps {
      var (a, b) := cw.overlaps[(x, y)];
      assert s[x] in r[x] by {
        assert Compatible(s[x], a, s[y], b);
        assert HasSupport(s[x], a, d[y], b);
      }
      WithinAfterShrink(s, d, r, x);
      assert IsSolution(cw, r, s);
    }
  }

  /** A word kept in the one domain that changed keeps an assignment within the domains. */
  lemma WithinAfterShrink(s: Assignment, d: Domains, r: Domains, x: Variable)
    requires Within(s, d) && r.Keys == d.Keys && x in s && s[x] in r[x]
    requires forall v :: v in d && v != x ==> r[v] == d[v]
    ensures Within(s, r)
  {
  }

  /** Every solution within `d0` is still a solution within `d`. */
  ghost predicate KeepsSolutions(cw: Crossword, d0: Domains, d: Domains)
  {
    forall s :: IsSolution(cw, d0, s) ==> IsSolution(cw, d, s)
  }

  lemma ReviseKeepsAllSolutions(cw: Crossword, d0: Domains, d: Domains, x: Variable, y: Variable)
    requires WellFormed(cw) && Indexable(cw, d) && KeepsSolutions(cw, d0, d)
    ensures KeepsSolutions(cw, d0, ReviseArc(cw, d, x, y).domains)
  {
    forall s | IsSolution(cw, d0, s)
      ensures IsSolution(cw, ReviseArc(cw, d, x, y).domains, s)
    {
      ReviseKeepsSolutions(cw, d, x, y, s);
    }
  }

  /** Revising the same arc a second time removes nothing. */
  lemma {:induction false} ReviseIdempotent(cw: Crossword, d: Domains, x: Variable, y: Variable)
    requires WellFormed(cw) && Indexable(cw, d)
    ensures !ReviseArc(cw, ReviseArc(cw, d, x, y).domains, x, y).revised
  {
    var d1 := ReviseArc(cw, d, x, y).domains;
    if (x, y) in cw.overlaps {
      var (a, b) := cw.overlaps[(x, y)];
      var d2 := ReviseArc(cw, d1, x, y).domains;
      assert d1[y] == d[y];
      forall w | w in d1[x]
        ensures w in d2[x]
      {
        assert HasSupport(w, a, d[y], b);
      }
    }
  }

  /** Revising arc `(x, y)` keeps every other supported arc supported, except arcs `(z, x)` with
      `z != y`, which AC-3 puts back on its queue. The arc `(y, x)` survives because a removed word of
      `x` had no partner in `y`'s domain and so supported nothing there. */
  lemma {:induction false} ReviseKeepsOtherArcs(cw: Crossword, d: Domains, x: Variable, y: Variable, p: Arc)
    requires WellFormed(cw) && Indexable(cw, d) && (x, y) in cw.overlaps
    requires ArcSupported(cw, d, p) && (p.1 != x || p.0 == y)
    ensures ArcSupported(cw, ReviseArc(cw, d, x, y).domains, p)
  {
    var r := ReviseArc(cw, d, x, y).domains;
    var (a, b) := cw.overlaps[(x, y)];
    assert x != y;
    if p.1 != x {
      forall w | w in r[p.0]
        ensures HasSupport(w, cw.overlaps[p].0, r[p.1], cw.overlaps[p].1)
      {
        assert HasSupport(w, cw.overlaps[p].0, d[p.1], cw.overlaps[p].1);
      }
    } else {
      assert p == (y, x);
      assert cw.overlaps[p] == (b, a);
      forall w | w in r[y]
        ensures HasSupport(w, b, r[x], a)
      {
        assert HasSupport(w, b, d[x], a);
        var u :| u in d[x] && Compatible(w, b, u, a);
        assert Compatible(u, a, w, b);
        assert HasSupport(u, a, d[y], b);
        assert u in r[x];
      }
    }
  }

  /** The result of `ac3` as written: the domains and the returned value, `None` when the queue is
      empty. */
  datatype Ac3Outcome = Ac3Outcome(domains: Domains, answer: Option<bool>)

  /** `q` lists every arc of the puzzle exactly once, as the loop loading the queue produces it; the
      order is whatever order the dict of domains and the neighbour sets are iterated in. */
  predicate ListsArcs(cw: Crossword, q: seq<Arc>)
  {
    && (forall k :: 0 <= k < |q| ==> q[k] in cw.overlaps)
    && (forall p :: p in cw.overlaps ==> p in q)
    && (forall k, l :: 0 <= k < l < |q| ==> q[k] != q[l])
  }

  /** A listing of the arcs is empty exactly when the puzzle has no crossings. */
  lemma ListsArcsEmpty(cw: Crossword, q: seq<Arc>)
    requires ListsArcs(cw, q)
    ensures |q| == 0 <==> cw.overlaps == map[]
  {
    if |q| > 0 {
      assert q[0] in cw.overlaps;
    }
    if cw.overlaps != map[] {
      assert cw.overlaps.Keys != {};
      var p :| p in cw.overlaps;
      assert p in q;
    }
  }

  /** `ac3(arcs)` as written. Explicit arcs leave the queue unbound. Otherwise the loop revises the
      first queued arc and returns inside its body, so only that arc is processed; an empty queue
      skips the loop and the function returns `None`. */
  function Ac3(cw: Crossword, d: Domains, arcs: Option<seq<Arc>>, loadOrder: seq<Arc>): (r: Result<Ac3Outcome, CspError>)
    requires WellFormed(cw) && Indexable(cw, d) && ListsArcs(cw, loadOrder)
    ensures r.Err? <==> arcs.Some?
    ensures r.Err? ==> r.error == UnboundQueue
    ensures r.Ok? ==> r.value.domains.Keys == d.Keys && Indexable(cw, r.value.domains)
    ensures r.Ok? ==> forall v :: v in d ==> r.value.domains[v] <= d[v]
    ensures r.Ok? ==> (r.value.answer.None? <==> cw.overlaps == map[])
    ensures r.Ok? && cw.overlaps != map[] ==>
      var x := loadOrder[0].0;
      && (r.value.answer == Some(false) <==> d[x] != {} && r.value.domains[x] == {})
      && (forall v :: v in d && v != x ==> r.value.domains[v] == d[v])
    ensures r.Ok? && cw.overlaps != map[] ==>
      var (x, y) := loadOrder[0];
      && ArcSupported(cw, r.value.domains, (x, y))
      && forall w :: w in d[x] ==> (w in r.value.domains[x] <==> HasSupport(w, cw.overlaps[(x, y)].0, d[y], cw.overlaps[(x, y)].1))
  {
    if arcs.Some? then Err(UnboundQueue)
    else if |loadOrder| == 0 then
      ListsArcsEmpty(cw, loadOrder);
      Ok(Ac3Outcome(d, None))
    else
      var (x, y) := loadOrder[0];
      var rv := Revise(cw, d, x, y).value;
      if rv.revised && |rv.domains[x]| == 0 then Ok(Ac3Outcome(rv.domains, Some(false)))
      else Ok(Ac3Outcome(rv.domains, Some(true)))
  }

  /** Two slots crossing at their first letters: the smallest puzzle with two arcs. */
  function CrossedPair(): Crossword
  {
    var x := Variable(0, 0, Across, 2);
    var y := Variable(0, 0, Down, 2);
    Crossword({x, y}, map[(x, y) := (0, 0), (y, x) := (0, 0)])
  }

  /** `revise` as written raises on two slots that do not cross instead of reporting no revision:
      here two parallel across slots, whose overlap is `None`. */
  lemma ReviseRaisesOnUncrossedPair()
    ensures var x := Variable(0, 0, Across, 2);
      var y := Variable(2, 0, Across, 2);
      var cw := Crossword({x, y}, map[]);
      var d := map[x := {"ab"}, y := {"cd"}];
      && WellFormed(cw) && Indexable(cw, d)
      && Revise(cw, d, x, y) == Err(NoOverlap)
      && ReviseArc(cw, d, x, y) == Revision(d, false)
  {
  }

  /** `ac3` as written reports success after revising only the first arc: with "ab" for the across
      slot and "ab", "cb" for the down slot, the arc (across, down) needs no revision, so `True` is
      returned while "cb" still has no partner across. */
  lemma Ac3StopsAfterFirstArc()
    ensures var cw := CrossedPair();
      var x := Variable(0, 0, Across, 2);
      var y := Variable(0, 0, Down, 2);
      var d := map[x := {"ab"}, y := {"ab", "cb"}];
      && WellFormed(cw) && Indexable(cw, d) && ListsArcs(cw, [(x, y), (y, x)])
      && var r := Ac3(cw, d, None, [(x, y), (y, x)]);
      && r == Ok(Ac3Outcome(d, Some(true)))
      && !ArcConsistent(cw, r.value.domains)
  {
    var cw := CrossedPair();
    var x := Variable(0, 0, Across, 2);
    var y := Variable(0, 0, Down, 2);
    var d := map[x := {"ab"}, y := {"ab", "cb"}];
    assert Indexable(cw, d);
    assert Compatible("ab", 0, "ab", 0);
    var rv := Revise(cw, d, x, y).value;
    assert rv.domains[x] == d[x];
    assert rv.domains == d;
    assert !HasSupport("cb", 0, d[x], 0);
    assert !ArcSupported(cw, d, (y, x));
  }

  /** Every arc outside the seed list is already arc consistent (always so without a seed, since
      AC-3 then starts from every arc). */
  predicate SeedCovers(cw: Crossword, d: Domains, arcs: Option<seq<Arc>>)
  {
    arcs.None? || forall p :: p in cw.overlaps && p !in arcs.value ==> ArcSupported(cw, d, p)
  }

  /** The (variable, candidate) pairs still in the domains; it shrinks whenever a revision removes a
      word. */
  function Candidates(d: Domains): set<(Variable, string)>
  {
    set v, w | v in d && w in d[v] :: (v, w)
  }

  lemma CandidatesShrink(d: Domains, d': Domains, x: Variable)
    requires d'.Keys == d.Keys && x in d && d'[x] < d[x]
    requires forall v :: v in d && v != x ==> d'[v] == d[v]
    ensures |Candidates(d')| < |Candidates(d)|
  {
    forall v, w | v in d' && w in d'[v]
      ensures (v, w) in Candidates(d)
    {
    }
    var w :| w in d[x] && w !in d'[x];
    assert (x, w) in Candidates(d) - Candidates(d');
    SetCard.SubsetCard(Candidates(d'), Candidates(d));
  }

  /** Every arc of the puzzle that is off the queue `q` is arc consistent. */
  predicate OffQueueSupported(cw: Crossword, d: Domains, q: set<Arc>)
  {
    forall p :: p in cw.overlaps && p !in q ==> ArcSupported(cw, d, p)
  }

  /** The queue after revising arc `(x, y)` shrank `x`'s domain: the arc leaves, and `(z, x)` joins
      for every other neighbour `z` of `x`. */
  function Requeue(cw: Crossword, q: set<Arc>, x: Variable, y: Variable): set<Arc>
  {
    q - {(x, y)} + (set z | z in Neighbors(cw, x) && z != y :: (z, x))
  }

  /** A revision that removed a word keeps "every arc off the queue is arc consistent" once the
      arcs into the revised variable are put back. */
  lemma {:induction false} RequeueKeepsSupport(cw: Crossword, d: Domains, q: set<Arc>, x: Variable, y: Variable)
    requires WellFormed(cw) && Indexable(cw, d) && (x, y) in cw.overlaps
    requires OffQueueSupported(cw, d, q)
    ensures OffQueueSupported(cw, ReviseArc(cw, d, x, y).domains, Requeue(cw, q, x, y))
  {
    forall p | p in cw.overlaps && p !in Requeue(cw, q, x, y)
      ensures ArcSupported(cw, ReviseArc(cw, d, x, y).domains, p)
    {
      RequeueKeepsArc(cw, d, q, x, y, p);
    }
  }

  lemma {:induction false} RequeueKeepsArc(cw: Crossword, d: Domains, q: set<Arc>, x: Variable, y: Variable, p: Arc)
    requires WellFormed(cw) && Indexable(cw, d) && (x, y) in cw.overlaps
    requires p in cw.overlaps && p !in Requeue(cw, q, x, y)
    requires p !in q ==> ArcSupported(cw, d, p)
    ensures ArcSupported(cw, ReviseArc(cw, d, x, y).domains, p)
  {
    RequeueHoldsIncoming(cw, q, x, y);
    if p != (x, y) {
      ReviseKeepsOtherArcs(cw, d, x, y, p);
    }
  }

  /** Every arc `(z, x)` into the revised variable, other than from `y`, is back on the queue. */
  lemma RequeueHoldsIncoming(cw: Crossword, q: set<Arc>, x: Variable, y: Variable)
    requires WellFormed(cw)
    ensures forall z :: (z, x) in cw.overlaps && z != y ==> (z, x) in Requeue(cw, q, x, y)
  {
    forall z | (z, x) in cw.overlaps && z != y
      ensures (z, x) in Requeue(cw, q, x, y)
    {
      assert (x, z) in cw.overlaps;
    }
  }

  /** What every pruning step keeps: the domains only shrink, stay indexable and keep every
      solution within `d`. */
  ghost predicate Pruned(cw: Crossword, d: Domains, r: Domains)
  {
    && r.Keys == d.Keys && Indexable(cw, r)
    && (forall v :: v in d ==> r[v] <= d[v])
    && KeepsSolutions(cw, d, r)
  }

  /** No domain was emptied, unless one was empty to begin with. */
  predicate NoneEmptied(d: Domains, r: Domains)
  {
    (forall v :: v in d ==> d[v] != {}) ==> forall v :: v in r ==> r[v] != {}
  }

  /** Revising any arc keeps the domains pruned. */
  lemma RevisePrunes(cw: Crossword, d: Domains, r: Domains, x: Variable, y: Variable)
    requires WellFormed(cw) && Pruned(cw, d, r)
    ensures Pruned(cw, d, ReviseArc(cw, r, x, y).domains)
  {
    ReviseKeepsAllSolutions(cw, d, r, x, y);
  }

  /** A revision that removes nothing changes nothing, and its arc may leave the queue. */
  lemma DrainSkip(cw: Crossword, r: Domains, q: set<Arc>, x: Variable, y: Variable)
    requires WellFormed(cw) && Indexable(cw, r) && !ReviseArc(cw, r, x, y).revised
    ensures ReviseArc(cw, r, x, y).domains == r
    ensures OffQueueSupported(cw, r, q) ==> OffQueueSupported(cw, r, q - {(x, y)})
  {
    var rv := ReviseArc(cw, r, x, y);
    if (x, y) in cw.overlaps {
      assert rv.domains[x] == r[x];
      assert rv.domains == r;
      assert ArcSupported(cw, r, (x, y));
    }
  }

  /** A revision that removed words without emptying the domain keeps every domain nonempty and
      shrinks the candidate count. */
  lemma DrainPrune(cw: Crossword, d: Domains, r: Domains, x: Variable, y: Variable)
    requires WellFormed(cw) && Indexable(cw, r) && r.Keys == d.Keys && NoneEmptied(d, r)
    requires ReviseArc(cw, r, x, y).revised && x in r && ReviseArc(cw, r, x, y).domains[x] != {}
    ensures NoneEmptied(d, ReviseArc(cw, r, x, y).domains)
    ensures |Candidates(ReviseArc(cw, r, x, y).domains)| < |Candidates(r)|
  {
    var rv := ReviseArc(cw, r, x, y);
    assert (x, y) in cw.overlaps;
    assert forall v :: v in r && v != x ==> rv.domains[v] == r[v];
    CandidatesShrink(r, rv.domains, x);
  }

  /** AC-3 draining its queue, as the `ac3` docstring describes: revise queued arcs until the queue
      is empty, putting back `(z, x)` for every other neighbour `z` whenever `x`'s domain shrinks,
      and fail as soon as a revision empties a domain. On success every arc is arc consistent (given
      that arcs left out of an explicit seed were already); pruning never enlarges a domain, never
      loses a solution, and fails only with an emptied domain. */
  method Ac3Drain(cw: Crossword, d: Domains, arcs: Option<seq<Arc>>) returns (r: Domains, ok: bool)
    requires WellFormed(cw) && Indexable(cw, d)
    ensures r.Keys == d.Keys && Indexable(cw, r)
    ensures forall v :: v in d ==> r[v] <= d[v]
    ensures !ok ==> exists v :: v in r && r[v] == {}
    ensures ok && (forall v :: v in d ==> d[v] != {}) ==> forall v :: v in r ==> r[v] != {}
    ensures ok && SeedCovers(cw, d, arcs) ==> ArcConsistent(cw, r)
    ensures KeepsSolutions(cw, d, r)
  {
    r, ok := d, true;
    var q: set<Arc> := if arcs.None? then cw.overlaps.Keys else set k | 0 <= k < |arcs.value| :: arcs.value[k];
    ghost var covers := SeedCovers(cw, d, arcs);
    while q != {}
      invariant Pruned(cw, d, r) && NoneEmptied(d, r)
      invariant covers ==> OffQueueSupported(cw, r, q)
      decreases |Candidates(r)|, |q|
    {
      var p :| p in q;
      var (x, y) := p;
      var rv := ReviseArc(cw, r, x, y);
      RevisePrunes(cw, d, r, x, y);
      if !rv.revised {
        DrainSkip(cw, r, q, x, y);
        q := q - {p};
      } else if x in r && rv.domains[x] == {} {
        return rv.domains, false;
      } else {
        assert x in r;
        DrainPrune(cw, d, r, x, y);
        if covers {
          RequeueKeepsSupport(cw, r, q, x, y);
        }
        r, q := rv.domains, Requeue(cw, q, x, y);
      }
    }
  }
}
