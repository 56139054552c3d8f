/** Non-negative quantities of the path searches: a `double` that is either a real number or INFINITY. */
module ExtendedReals {

  datatype Ext = Fin(v: real) | Inf
  {
    predicate Less(b: Ext)
    {
      Fin? && (b.Inf? || v < b.v)
    }

    /** Addition in which INFINITY absorbs. */
    function Plus(b: Ext): Ext
    {
      if Fin? && b.Fin? then Fin(v + b.v) else Inf
    }

    predicate NonNegative()
    {
      Inf? || v >= 0.0
    }

    predicate Positive()
    {
      Inf? || v > 0.0
    }
  }

  const Zero: Ext := Fin(0.0)
}
