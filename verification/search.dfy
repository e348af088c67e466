/** The search half of `CrosswordCreator` in generate.py: the completeness and consistency tests,
    the minimum-remaining-values choice of the next variable, the least-constraining-value count,
    recursive backtracking and `solve`. */
module Search {
  import opened Outcomes
  import opened Topology
  import opened CspModel
  import opened Consistency
  import SetCard

  /** `assignment_complete`: scans the variables of the domains and fails on the first one the
      assignment leaves out. */
  method AssignmentComplete(d: Domains, a: Assignment) returns (b: bool)
    ensures b <==> d.Keys <= a.Keys
  {
    var todo := d.Keys;
    while todo != {}
      invariant todo <= d.Keys
      invariant forall v :: v in d && v !in todo ==> v in a
      decreases todo
    {
      var v :| v in todo;
      if v !in a {
        return false;
      }
      todo := todo - {v};
    }
    return true;
  }

  /** A map is injective exactly when it has as many distinct values as keys; it never has more. */
  lemma {:induction false} DistinctCard(a: Assignment)
    ensures |a.Values| <= |a.Keys|
    ensures Distinct(a) <==> |a.Values| == |a.Keys|
    decreases |a.Keys|
  {
    if a.Keys != {} {
      var k :| k in a;
      var rest := a - {k};
      assert a.Keys == rest.Keys + {k};
      assert a.Values == rest.Values + {a[k]};
      DistinctCard(rest);
      if a[k] in rest.Values {
        var u :| u in rest && rest[u] == a[k];
        assert a[u] == a[k] && u != k;
      } else if Distinct(rest) {
        forall v, u | v in a && u in a && v != u
          ensures a[v] != a[u]
        {
          if v == k {
            assert a[u] == rest[u];
          } else if u == k {
            assert a[v] == rest[v];
          } else {
            assert v in rest && u in rest;
          }
        }
      }
    } else {
      assert a.Values == {};
    }
  }

  /** Every assigned pair of crossing slots, found through the neighbours of each assigned slot,
      agrees on the shared square; this is how `consistent` walks the overlaps. */
  predicate NeighboursAgree(cw: Crossword, a: Assignment)
  {
    forall v, z :: v in a && z in Neighbors(cw, v) && z in a ==>
      Compatible(a[v], cw.overlaps[(v, z)].0, a[z], cw.overlaps[(v, z)].1)
  }

  /** Walking the neighbours visits every overlap between assigned slots. */
  lemma NeighboursAgreeIff(cw: Crossword, a: Assignment)
    requires WellFormed(cw)
    ensures NeighboursAgree(cw, a) <==> OverlapsAgree(cw, a)
  {
    if NeighboursAgree(cw, a) {
      forall p | p in cw.overlaps && p.0 in a && p.1 in a
        ensures Compatible(a[p.0], cw.overlaps[p].0, a[p.1], cw.overlaps[p].1)
      {
        var (v, z) := p;
        assert z in Neighbors(cw, v);
      }
    }
    if OverlapsAgree(cw, a) {
      forall v, z | v in a && z in Neighbors(cw, v) && z in a
        ensures Compatible(a[v], cw.overlaps[(v, z)].0, a[z], cw.overlaps[(v, z)].1)
      {
        assert (v, z) in cw.overlaps;
      }
    }
  }

  /** `consistent`: the words are pairwise distinct (as many distinct values as entries), every
      word has its slot's length, and every assigned neighbour pair agrees at its overlap. It holds
      exactly for the assignments satisfying the puzzle's constraints. */
  function Consistent(cw: Crossword, a: Assignment): (b: bool)
    requires WellFormed(cw)
    ensures b <==> Satisfies(cw, a)
  {
    DistinctCard(a);
    NeighboursAgreeIff(cw, a);
    && |a.Values| == |a.Keys|
    && (forall v :: v in a ==> v.length == |a[v]|)
    && NeighboursAgree(cw, a)
  }

  /** `order` lists the variables of the domains once each, in the order the dict of domains is
      iterated. */
  predicate ListsKeys(d: Domains, order: seq<Variable>)
  {
    && (forall k :: 0 <= k < |order| ==> order[k] in d)
    && (forall v :: v in d ==> v in order)
    && (forall k, l :: 0 <= k < l < |order| ==> order[k] != order[l])
  }

  /** Every unassigned variable listed before position `k` has a larger domain than `order[k]`. */
  predicate AllLargerBefore(d: Domains, order: seq<Variable>, a: Assignment, k: int)
    requires ListsKeys(d, order) && 0 <= k < |order|
  {
    forall j :: 0 <= j < k && order[j] !in a ==> |d[order[j]]| > |d[order[k]]|
  }

  /** `select_unassigned_variable`: the unassigned variables, in dict order, are sorted stably by
      the size of their domains and the first is taken, so the choice has the fewest remaining
      values and, among those, comes first in dict order. With nothing unassigned the list is
      empty and indexing it raises. */
  method SelectUnassignedVariable(d: Domains, order: seq<Variable>, a: Assignment) returns (r: Result<Variable, CspError>)
    requires ListsKeys(d, order)
    ensures r.Err? <==> d.Keys <= a.Keys
    ensures r.Err? ==> r.error == NoUnassigned
    ensures r.Ok? ==> r.value in d && r.value !in a
    ensures r.Ok? ==> forall v :: v in d && v !in a ==> |d[r.value]| <= |d[v]|
    ensures r.Ok? ==> exists k :: 0 <= k < |order| && order[k] == r.value && AllLargerBefore(d, order, a, k)
  {
    var best := -1;
    var i := 0;
    while i < |order|
      invariant 0 <= i <= |order| && -1 <= best < i
      invariant best == -1 ==> forall j :: 0 <= j < i ==> order[j] in a
      invariant best >= 0 ==> order[best] !in a
      invariant best >= 0 ==> forall j :: 0 <= j < i && order[j] !in a ==> |d[order[best]]| <= |d[order[j]]|
      invariant best >= 0 ==> AllLargerBefore(d, order, a, best)
    {
      if order[i] !in a && (best == -1 || |d[order[i]]| < |d[order[best]]|) {
        best := i;
      }
      i := i + 1;
    }
    if best == -1 {
      return Err(NoUnassigned);
    }
    r := Ok(order[best]);
    forall v | v in d && v !in a
      ensures |d[r.value]| <= |d[v]|
    {
      var j :| 0 <= j < |order| && order[j] == v;
    }
  }

  /** The candidates that placing `w` in `x` rules out: each pair of an unassigned neighbour `z`
      of `x` and a word of `z`'s domain that disagrees with `w` on their shared square. The
      least-constraining-value heuristic counts them. */
  function RuledOut(cw: Crossword, d: Domains, x: Variable, a: Assignment, w: string): set<(Variable, string)>
  {
    set z, u | z in Neighbors(cw, x) && z !in a && z in d && u in d[z] &&
      !Compatible(w, cw.overlaps[(x, z)].0, u, cw.overlaps[(x, z)].1) :: (z, u)
  }

  /** The ruled-out pairs whose neighbour has already been visited, i.e. is not in `zs`. */
  ghost function Visited(cw: Crossword, d: Domains, x: Variable, a: Assignment, w: string, zs: set<Variable>): set<(Variable, string)>
  {
    set p | p in RuledOut(cw, d, x, a, w) && p.0 !in zs
  }

  /** The pairs `(z, u)` for the words `u` of `ws` that disagree with `w` when letter `ox` of `w`
      and letter `oy` of `u` share a square. */
  function Disagreeing(w: string, z: Variable, ox: nat, oy: nat, ws: set<string>): set<(Variable, string)>
  {
    set u | u in ws && !Compatible(w, ox, u, oy) :: (z, u)
  }

  lemma VisitedNone(cw: Crossword, d: Domains, x: Variable, a: Assignment, w: string)
    ensures Visited(cw, d, x, a, w, Neighbors(cw, x)) == {}
  {
  }

  lemma VisitedAll(cw: Crossword, d: Domains, x: Variable, a: Assignment, w: string)
    ensures Visited(cw, d, x, a, w, {}) == RuledOut(cw, d, x, a, w)
  {
  }

  /** Visiting a neighbour adds exactly the pairs it contributes: none when it is assigned, one per
      disagreeing word of its domain otherwise. */
  lemma VisitStep(cw: Crossword, d: Domains, x: Variable, a: Assignment, w: string, zs: set<Variable>, z: Variable)
    requires z in zs && z in Neighbors(cw, x) && z in d
    ensures z in a ==> Visited(cw, d, x, a, w, zs - {z}) == Visited(cw, d, x, a, w, zs)
    ensures z !in a ==>
      var (ox, oy) := cw.overlaps[(x, z)];
      && Visited(cw, d, x, a, w, zs - {z}) == Visited(cw, d, x, a, w, zs) + Disagreeing(w, z, ox, oy, d[z])
      && Visited(cw, d, x, a, w, zs) !! Disagreeing(w, z, ox, oy, d[z])
  {
  }

  /** Visiting one more word adds its pair when the word disagrees. */
  lemma WordStep(w: string, z: Variable, ox: nat, oy: nat, done: set<string>, u: string)
    requires u !in done
    ensures Disagreeing(w, z, ox, oy, done + {u}) ==
      Disagreeing(w, z, ox, oy, done) + (if Compatible(w, ox, u, oy) then {} else {(z, u)})
    ensures (z, u) !in Disagreeing(w, z, ox, oy, done)
  {
  }

  /** The inner loop of the count: one for each word of `ws` whose letter `oy` differs from letter
      `ox` of `w`. */
  method CountDisagreeing(w: string, z: Variable, ox: nat, oy: nat, ws: set<string>) returns (m: nat)
    requires ox < |w| && LongerThan(ws, oy)
    ensures m == |Disagreeing(w, z, ox, oy, ws)|
  {
    m := 0;
    var us := ws;
    ghost var done: set<string> := {};
    while us != {}
      invariant us <= ws && done == ws - us
      invariant m == |Disagreeing(w, z, ox, oy, done)|
      decreases us
    {
      var u :| u in us;
      WordStep(w, z, ox, oy, done, u);
      if w[ox] != u[oy] {
        m := m + 1;
      }
      us, done := us - {u}, done + {u};
    }
    assert done == ws;
  }

  /** The counting loop of `order_domain_values` for one word: for every unassigned neighbour and
      every word of its domain, one is added when the letters on the shared square differ. The
      count is the number of candidates the word rules out. */
  method CountEliminations(cw: Crossword, d: Domains, x: Variable, a: Assignment, w: string) returns (n: nat)
    requires WellFormed(cw) && Indexable(cw, d) && x in d && w in d[x]
    ensures n == |RuledOut(cw, d, x, a, w)|
  {
    n := 0;
    var zs := Neighbors(cw, x);
    VisitedNone(cw, d, x, a, w);
    while zs != {}
      invariant zs <= Neighbors(cw, x)
      invariant n == |Visited(cw, d, x, a, w, zs)|
      decreases zs
    {
      var z :| z in zs;
      VisitStep(cw, d, x, a, w, zs, z);
      if z !in a {
        var (ox, oy) := cw.overlaps[(x, z)];
        assert LongerThan(d[x], ox);
        assert LongerThan(d[z], oy) by {
          assert (z, x) in cw.overlaps;
        }
        var m := CountDisagreeing(w, z, ox, oy, d[z]);
        SetCard.DisjointUnionCard(Visited(cw, d, x, a, w, zs), Disagreeing(w, z, ox, oy, d[z]));
        n := n + m;
      }
      zs := zs - {z};
    }
    VisitedAll(cw, d, x, a, w);
  }

  /** The dict `order_domain_values` fills: for every candidate of `x`, the number of candidates it
      rules out. */
  method EliminationCounts(cw: Crossword, d: Domains, x: Variable, a: Assignment) returns (counts: map<string, nat>)
    requires WellFormed(cw) && Indexable(cw, d) && x in d
    ensures counts.Keys == d[x]
    ensures forall w :: w in counts ==> counts[w] == |RuledOut(cw, d, x, a, w)|
  {
    counts := map[];
    var rest := d[x];
    while rest != {}
      invariant rest <= d[x] && counts.Keys == d[x] - rest
      invariant forall w :: w in counts ==> counts[w] == |RuledOut(cw, d, x, a, w)|
      decreases rest
    {
      var w :| w in rest;
      var n := CountEliminations(cw, d, x, a, w);
      counts, rest := counts[w := n], rest - {w};
    }
  }

  /** `order_domain_values` as written: the counts are computed, but the dict comprehension that
      should sort them calls `sorted`, which the same statement assigns and which is therefore a
      still-unbound local variable, so the call always raises. */
  method OrderDomainValuesAsWritten(cw: Crossword, d: Domains, x: Variable, a: Assignment) returns (r: Result<seq<string>, CspError>)
    requires WellFormed(cw) && Indexable(cw, d) && x in d
    ensures r.Err? && r.error == UnboundSorted
  {
    var counts := EliminationCounts(cw, d, x, a);
    return Err(UnboundSorted);
  }

  /** A nonempty set of words has one with the least count. */
  lemma {:induction false} LeastExists(counts: map<string, nat>, ws: set<string>)
    requires ws != {} && ws <= counts.Keys
    ensures exists w :: w in ws && forall u :: u in ws ==> counts[w] <= counts[u]
    decreases |ws|
  {
    var v :| v in ws;
    if ws != {v} {
      LeastExists(counts, ws - {v});
      var w :| w in ws - {v} && forall u :: u in ws - {v} ==> counts[w] <= counts[u];
      if counts[v] < counts[w] {
        assert forall u :: u in ws ==> counts[v] <= counts[u];
      } else {
        assert forall u :: u in ws ==> counts[w] <= counts[u];
      }
    } else {
      assert forall u :: u in ws ==> counts[v] <= counts[u];
    }
  }

  /** The words of `counts` in ascending order of their counts, each once, as the sort in
      `order_domain_values` intends; ties come in any order. */
  method OrderByCount(counts: map<string, nat>) returns (r: seq<string>)
    ensures forall k :: 0 <= k < |r| ==> r[k] in counts
    ensures forall w :: w in counts ==> w in r
    ensures forall k, l :: 0 <= k < l < |r| ==> r[k] != r[l]
    ensures forall k, l :: 0 <= k < l < |r| ==> counts[r[k]] <= counts[r[l]]
  {
    r := [];
    var rest := counts.Keys;
    while rest != {}
      invariant rest <= counts.Keys
      invariant forall k :: 0 <= k < |r| ==> r[k] in counts && r[k] !in rest
      invariant forall w :: w in counts ==> w in rest || w in r
      invariant forall k, l :: 0 <= k < l < |r| ==> r[k] != r[l]
      invariant forall k, l :: 0 <= k < l < |r| ==> counts[r[k]] <= counts[r[l]]
      invariant forall k, w :: 0 <= k < |r| && w in rest ==> counts[r[k]] <= counts[w]
      decreases rest
    {
      LeastExists(counts, rest);
      var w :| w in rest && forall u :: u in rest ==> counts[w] <= counts[u];
      r, rest := r + [w], rest - {w};
    }
  }

  /** `order_domain_values` as intended: the candidates of `x`, each once, least constraining
      first. */
  method OrderDomainValues(cw: Crossword, d: Domains, x: Variable, a: Assignment) returns (r: seq<string>)
    requires WellFormed(cw) && Indexable(cw, d) && x in d
    ensures forall k :: 0 <= k < |r| ==> r[k] in d[x]
    ensures forall w :: w in d[x] ==> w in r
    ensures forall k, l :: 0 <= k < l < |r| ==> r[k] != r[l]
    ensures forall k, l :: 0 <= k < l < |r| ==>
      |RuledOut(cw, d, x, a, r[k])| <= |RuledOut(cw, d, x, a, r[l])|
  {
    var counts := EliminationCounts(cw, d, x, a);
    r := OrderByCount(counts);
  }

  /** `s` completes `a`: it assigns every variable, agrees with `a`, and takes every word it adds
      from the domains. */
  predicate Completes(d: Domains, a: Assignment, s: Assignment)
  {
    && s.Keys == d.Keys && Extends(s, a)
    && forall v :: v in s && v !in a ==> s[v] in d[v]
  }

  /** Every solution extending `a` puts in `v` a word of `rest`: the words tried so far led to
      none. */
  ghost predicate OnlyRestLeft(cw: Crossword, d: Domains, a: Assignment, v: Variable, rest: set<string>)
  {
    forall s :: IsSolution(cw, d, s) && Extends(s, a) && v in s ==> s[v] in rest
  }

  /** A word that makes the assignment inconsistent, or whose recursive search found nothing, holds
      no solution. */
  lemma SkipWord(cw: Crossword, d: Domains, a: Assignment, v: Variable, w: string, rest: set<string>)
    requires OnlyRestLeft(cw, d, a, v, rest)
    requires !Satisfies(cw, a[v := w]) || forall s :: IsSolution(cw, d, s) ==> !Extends(s, a[v := w])
    ensures OnlyRestLeft(cw, d, a, v, rest - {w})
  {
    forall s | IsSolution(cw, d, s) && Extends(s, a) && v in s
      ensures s[v] in rest - {w}
    {
      if s[v] == w {
        assert Extends(s, a[v := w]);
        SatisfiesDownward(cw, s, a[v := w]);
      }
    }
  }

  /** A completion of the assignment with `w` placed in the unassigned `v` completes the
      assignment. */
  lemma CompletesStep(d: Domains, a: Assignment, v: Variable, w: string, s: Assignment)
    requires v in d && v !in a && w in d[v] && Completes(d, a[v := w], s)
    ensures Completes(d, a, s)
  {
  }

  /** `backtrack`: an assignment with as many entries as there are variables is returned as it
      is; otherwise the variable chosen by `select_unassigned_variable` is given each word of its
      domain in turn, recursing on every consistent extension, and the first complete result wins.
      A result completes the assignment with words of the domains and, unless the assignment was
      complete on entry, is consistent; no result means no solution extends the assignment. */
  method Backtrack(cw: Crossword, d: Domains, order: seq<Variable>, a: Assignment) returns (r: Option<Assignment>)
    requires WellFormed(cw) && ListsKeys(d, order) && a.Keys <= d.Keys
    ensures a.Keys == d.Keys ==> r == Some(a)
    ensures r.Some? ==> Completes(d, a, r.value)
    ensures r.Some? && a.Keys != d.Keys ==> Satisfies(cw, r.value)
    ensures r.None? ==> forall s :: IsSolution(cw, d, s) ==> !Extends(s, a)
    decreases |d.Keys - a.Keys|
  {
    SetCard.SubsetCard(a.Keys, d.Keys);
    if |a| == |d| {
      return Some(a);
    }
    var sel := SelectUnassignedVariable(d, order, a);
    assert sel.Ok?;
    var v := sel.value;
    var rest := d[v];
    while rest != {}
      invariant rest <= d[v]
      invariant OnlyRestLeft(cw, d, a, v, rest)
      decreases rest
    {
      var w :| w in rest;
      var a' := a[v := w];
      if Consistent(cw, a') {
        assert d.Keys - a'.Keys < d.Keys - a.Keys by {
          assert v in d.Keys - a.Keys && v !in d.Keys - a'.Keys;
        }
        var res := Backtrack(cw, d, order, a');
        if res.Some? {
          CompletesStep(d, a, v, w, res.value);
          return res;
        }
      }
      SkipWord(cw, d, a, v, w, rest);
      rest := rest - {w};
    }
    return None;
  }

  /** The domains `CrosswordCreator` starts from: every word of the vocabulary for every slot. */
  function InitialDomains(cw: Crossword, words: set<string>): (d: Domains)
    ensures d.Keys == cw.variables && forall v :: v in d ==> d[v] == words
  {
    map v | v in cw.variables :: words
  }

  /** `solve`: node consistency, then AC-3, then backtracking from the empty assignment. AC-3 is
      the full-drain version (its result is ignored, as `solve` ignores the result of `ac3`). A
      result is a solution of the puzzle over the vocabulary, and none is returned only when no
      solution exists. */
  method Solve(cw: Crossword, words: set<string>, order: seq<Variable>) returns (r: Option<Assignment>)
    requires WellFormed(cw) && ListsKeys(InitialDomains(cw, words), order)
    ensures r.Some? ==> IsSolution(cw, InitialDomains(cw, words), r.value)
    ensures r.None? ==> forall s :: !IsSolution(cw, InitialDomains(cw, words), s)
  {
    var d0 := InitialDomains(cw, words);
    var d1 := EnforceNodeConsistency(d0);
    NodeConsistentIsIndexable(cw, d1);
    NodeConsistencyKeepsSolutions(cw, d0, d1);
    var d2, _ := Ac3Drain(cw, d1, None);
    r := Backtrack(cw, d2, order, map[]);
    if r.Some? {
      assert Within(r.value, d0) by {
        assert Completes(d2, map[], r.value);
      }
    }
  }
}
