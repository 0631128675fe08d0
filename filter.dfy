/** A total predicate over NGrams with AND-composition (Filter.java). */
module Filters {
  import opened Wrappers
  import opened NGrams

  datatype Filter = Filter(accepts: NGram -> bool)

  /** from(predicate): a null predicate is a null-argument error; otherwise
      the filter wraps exactly that predicate. */
  function From(p: Option<NGram -> bool>): (r: Result<Filter>)
    ensures p.None? <==> r.Err?
    ensures r.Err? ==> r.error == NullArgument
    ensures r.Ok? ==> forall n :: Test(r.value, n) == p.value(n)
  {
    match p
    case None => Err(NullArgument)
    case Some(q) => Ok(Filter(q))
  }

  /** test(n): the wrapped predicate's verdict on n. */
  function Test(f: Filter, n: NGram): bool
  {
    f.accepts(n)
  }

  /** and(other): with no other filter, this filter unchanged; otherwise one
      that accepts exactly what both accept. */
  function And(f: Filter, other: Option<Filter>): (r: Filter)
    ensures other.None? ==> r == f
    ensures other.Some? ==> forall n :: Test(r, n) == (Test(f, n) && Test(other.value, n))
  {
    match other
    case None => f
    case Some(g) => Filter(n => f.accepts(n) && g.accepts(n))
  }

  /** The reject-all filter. */
  const False: Filter := Filter(n => false)

  lemma FalseRejectsAll(n: NGram)
    ensures !Test(False, n)
  {
  }
}
