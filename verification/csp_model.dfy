/** The vocabulary of the crossword constraint problem: domains, assignments and the declarative
    conditions the engine is meant to establish. The engine's operations are stated against these. */
module CspModel {
  import opened Topology

  /** For each variable, the words still considered for it. */
  type Domains = map<Variable, set<string>>

  /** A partial map from variables to the words placed in them. */
  type Assignment = map<Variable, string>

  /** Every candidate left has its variable's length. */
  predicate NodeConsistent(d: Domains)
  {
    forall v, w :: v in d && w in d[v] ==> |w| == v.length
  }

  /** Domains over exactly the puzzle's variables, every candidate long enough to be indexed at the
      offset of each overlap its variable takes part in. Node-consistent domains are indexable. */
  predicate Indexable(cw: Crossword, d: Domains)
  {
    && d.Keys == cw.variables
    && forall p {:trigger p in cw.overlaps} :: p in cw.overlaps && p.0 in d ==> LongerThan(d[p.0], cw.overlaps[p].0)
  }

  /** Every word of `ws` has a letter at offset `k`. */
  predicate LongerThan(ws: set<string>, k: nat)
  {
    forall w :: w in ws ==> k < |w|
  }

  /** Letter `a` of `w` exists and equals letter `b` of `w'`. */
  predicate Compatible(w: string, a: nat, w': string, b: nat)
  {
    a < |w| && b < |w'| && w[a] == w'[b]
  }

  /** Some word of `ys` agrees with `w` at offsets `(a, b)`. */
  predicate HasSupport(w: string, a: nat, ys: set<string>, b: nat)
  {
    exists w' :: w' in ys && Compatible(w, a, w', b)
  }

  /** The arc `p = (x, y)` is arc consistent: every candidate of `x` has a partner in `y`'s domain. */
  predicate ArcSupported(cw: Crossword, d: Domains, p: Arc)
  {
    && p in cw.overlaps && p.0 in d && p.1 in d
    && forall w :: w in d[p.0] ==> HasSupport(w, cw.overlaps[p].0, d[p.1], cw.overlaps[p].1)
  }

  /** Every arc with a defined overlap is arc consistent. */
  predicate ArcConsistent(cw: Crossword, d: Domains)
  {
    forall p {:trigger p in cw.overlaps} :: p in cw.overlaps && p.0 in d && p.1 in d ==> ArcSupported(cw, d, p)
  }

  /** No word is placed twice. */
  predicate Distinct(a: Assignment)
  {
    forall v, u :: v in a && u in a && v != u ==> a[v] != a[u]
  }

  /** Every placed word has its slot's length. */
  predicate WordsFit(a: Assignment)
  {
    forall v :: v in a ==> |a[v]| == v.length
  }

  /** Every pair of placed, crossing words agrees on the shared square. */
  predicate OverlapsAgree(cw: Crossword, a: Assignment)
  {
    forall p {:trigger p in cw.overlaps} :: p in cw.overlaps && p.0 in a && p.1 in a ==>
      Compatible(a[p.0], cw.overlaps[p].0, a[p.1], cw.overlaps[p].1)
  }

  /** The three consistency conditions of a (partial) assignment. */
  predicate Satisfies(cw: Crossword, a: Assignment)
  {
    Distinct(a) && WordsFit(a) && OverlapsAgree(cw, a)
  }

  /** Every placed word is a candidate of its variable. */
  predicate Within(a: Assignment, d: Domains)
  {
    forall v :: v in a ==> v in d && a[v] in d[v]
  }

  /** `s` agrees with `a` wherever `a` is defined. */
  predicate Extends(s: Assignment, a: Assignment)
  {
    forall v :: v in a ==> v in s && s[v] == a[v]
  }

  /** A complete, consistent assignment drawing every word from the domains. */
  predicate IsSolution(cw: Crossword, d: Domains, s: Assignment)
  {
    s.Keys == d.Keys && Within(s, d) && Satisfies(cw, s)
  }

  /** Removing entries from a consistent assignment keeps it consistent. */
  lemma SatisfiesDownward(cw: Crossword, s: Assignment, a: Assignment)
    requires Satisfies(cw, s) && Extends(s, a)
    ensures Satisfies(cw, a)
  {
  }

  /** A solution only uses words that arc consistency keeps: its word for `x` is supported by its
      word for `y` on every arc. */
  lemma SolutionSupports(cw: Crossword, d: Domains, s: Assignment, p: Arc)
    requires IsSolution(cw, d, s) && p in cw.overlaps && p.0 in d && p.1 in d
    ensures HasSupport(s[p.0], cw.overlaps[p].0, d[p.1], cw.overlaps[p].1)
  {
    assert Compatible(s[p.0], cw.overlaps[p].0, s[p.1], cw.overlaps[p].1);
  }
}
