/** Boolean functions over predicate variables.

    A decision diagram is modelled by the function it denotes: the finite set of
    valuations on which it is true.  The constant-true diagram of the predicate graph
    is passed around as `one`; nothing below depends on which variables it ranges over.
 */
module BoolFunc {

  /** A valuation is the set of predicate variables that are true in it. */
  type Valuation = set<int>

  type Func = set<Valuation>

  /** if f then g else h */
  function Ite(f: Func, g: Func, h: Func): Func {
    (f * g) + (h - f)
  }
}
