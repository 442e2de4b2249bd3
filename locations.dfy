/**
 * A logical address in the document: zero-based line and column. The order is
 * written out by hand, comparison by comparison, as the editor defines it:
 * lexicographic on (line, column), with equality meaning equal fields.
 */
module Locations {
  import opened Wrappers

  datatype Location = Location(ln: nat, col: nat)

  datatype Ordering = Less | Equal | Greater

  /** `a` comes strictly before `b`. */
  predicate Lt(a: Location, b: Location) {
    a.ln < b.ln || (a.ln == b.ln && a.col < b.col)
  }

  /** `a` comes strictly after `b`: the same as `b` coming before `a`. */
  predicate Gt(a: Location, b: Location)
    ensures Gt(a, b) <==> Lt(b, a)
  {
    a.ln > b.ln || (a.ln == b.ln && a.col > b.col)
  }

  /** `a` is before or equal to `b`: exactly when `a` is not after `b`. */
  predicate Le(a: Location, b: Location)
    ensures Le(a, b) <==> !Gt(a, b)
  {
    Lt(a, b) || a == b
  }

  /** `a` is after or equal to `b`: exactly when `a` is not before `b`. */
  predicate Ge(a: Location, b: Location)
    ensures Ge(a, b) <==> !Lt(a, b)
  {
    Gt(a, b) || a == b
  }

  /**
   * The three-way comparison. It always returns a value, `Equal` exactly for
   * field-wise equal locations, and agrees with `Lt` and `Gt`.
   */
  function PartialCmp(a: Location, b: Location): (r: Option<Ordering>)
    ensures r.Some?
    ensures r.value == Equal <==> a == b
    ensures r.value == Less <==> Lt(a, b)
    ensures r.value == Greater <==> Lt(b, a)
  {
    if Lt(a, b) then Some(Less)
    else if Gt(a, b) then Some(Greater)
    else Some(Equal)
  }

  /** Exactly one of a < b, a == b and a > b holds. */
  lemma Trichotomy(a: Location, b: Location)
    ensures Lt(a, b) || a == b || Gt(a, b)
    ensures !(Lt(a, b) && a == b) && !(Lt(a, b) && Gt(a, b)) && !(a == b && Gt(a, b))
  {
  }

  /** `Lt` is irreflexive. */
  lemma LtIrreflexive(a: Location)
    ensures !Lt(a, a)
  {
  }

  /** `Lt` is transitive. */
  lemma LtTransitive(a: Location, b: Location, c: Location)
    requires Lt(a, b) && Lt(b, c)
    ensures Lt(a, c)
  {
  }

  /** The comparisons the editor's own unit test makes. */
  lemma OrderExamples()
    ensures Gt(Location(5, 5), Location(5, 4))
    ensures Lt(Location(5, 5), Location(6, 5))
    ensures PartialCmp(Location(5, 5), Location(5, 4)) == Some(Greater)
  {
  }
}
