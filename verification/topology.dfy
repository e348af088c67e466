/** The puzzle topology the crossword engine receives from the crossword structure: the word slots
    and which of them cross where. The structure-file parser that builds it is not part of this
    model; the engine only reads the topology. */
module Topology {

  datatype Direction = Across | Down

  /** A word slot: starting row `i`, starting column `j`, direction and length. Two variables are
      equal exactly when all four fields are. */
  datatype Variable = Variable(i: int, j: int, direction: Direction, length: nat)

  /** An ordered pair of variables, the key of the overlap relation and an entry of the AC-3 queue. */
  type Arc = (Variable, Variable)

  /** Offsets `(a, b)`: letter `a` of the first variable's word sits on the same square as letter `b`
      of the second variable's word. */
  type Offsets = (nat, nat)

  /** The slots and the overlap relation. An arc absent from `overlaps` is an arc whose overlap is
      `None` in the structure: the two slots do not cross. */
  datatype Crossword = Crossword(variables: set<Variable>, overlaps: map<Arc, Offsets>)

  /** A topology as a correct structure parser produces it: overlaps relate distinct slots of the
      puzzle, their offsets fall inside both words, and the relation is symmetric with the offsets
      swapped. Malformed topologies are rejected before they reach the engine. */
  predicate WellFormed(cw: Crossword)
  {
    && (forall p {:trigger p in cw.overlaps} :: p in cw.overlaps ==>
          && p.0 in cw.variables && p.1 in cw.variables && p.0 != p.1
          && cw.overlaps[p].0 < p.0.length && cw.overlaps[p].1 < p.1.length)
    && (forall x, y {:trigger (x, y) in cw.overlaps} :: x in cw.variables && y in cw.variables && (x, y) in cw.overlaps ==>
          (y, x) in cw.overlaps && cw.overlaps[(y, x)] == (cw.overlaps[(x, y)].1, cw.overlaps[(x, y)].0))
  }

  /** The variables crossing `v`. */
  function Neighbors(cw: Crossword, v: Variable): set<Variable>
  {
    set z | z in cw.variables && (v, z) in cw.overlaps
  }
}
