/** `ResourceLimit`: an `rlimit` pair whose fields may hold the marker
    `UNDEFINED` ("not configured").  `rlim_t` is a 64-bit unsigned type. */
module ResourceLimits {
  import opened Words

  /** `rlim_t(-2)`: minus two converted to the unsigned type. */
  const UNDEFINED: nat := Wrap(64, -2)

  /** `RLIM_INFINITY` is `rlim_t(-1)`. */
  const INFINITY: nat := Wrap(64, -1)

  datatype ResourceLimit = ResourceLimit(cur: U64, max: U64)

  /** The default constructor: both fields undefined. */
  function Default(): (r: ResourceLimit)
    ensures IsEmpty(r) && !IsFull(r)
  {
    Pow2Constants();
    ResourceLimit(UNDEFINED, UNDEFINED)
  }

  predicate IsEmpty(l: ResourceLimit)
  {
    l.cur == UNDEFINED && l.max == UNDEFINED
  }

  predicate IsFull(l: ResourceLimit)
  {
    l.cur != UNDEFINED && l.max != UNDEFINED
  }

  /** The marker is the largest unsigned value but one, so it differs from
      `RLIM_INFINITY`. */
  lemma UndefinedValue()
    ensures UNDEFINED == TWO64 - 2 && INFINITY == TWO64 - 1
    ensures UNDEFINED != INFINITY
  {
    Pow2Constants();
    ModOfDecomposition(-2, TWO64, -1, TWO64 - 2);
    ModOfDecomposition(-1, TWO64, -1, TWO64 - 1);
  }

  /** Emptiness and fullness as counts of defined fields: empty means none
      is defined, full means both are, so the two never hold together and a
      limit with exactly one defined field is neither. */
  lemma EmptyFullByDefinedCount(l: ResourceLimit)
    ensures var n := (if l.cur != UNDEFINED then 1 else 0) + (if l.max != UNDEFINED then 1 else 0);
            && (IsEmpty(l) <==> n == 0)
            && (IsFull(l) <==> n == 2)
            && !(IsEmpty(l) && IsFull(l))
            && (n == 1 ==> !IsEmpty(l) && !IsFull(l))
  {
  }
}
