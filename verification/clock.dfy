/**
 Go's monotonic clock readings and `time.Duration`, both as integer
 nanoseconds. A reading is an unbounded integer; a Duration is an int64.
 */
module Clock {

  /** `time.Second`, in nanoseconds. */
  const Second: int := 1_000_000_000

  /** The extreme values of an int64 Duration. */
  const MaxDuration: int := 0x7fff_ffff_ffff_ffff
  const MinDuration: int := -0x8000_0000_0000_0000

  predicate IsDuration(d: int) {
    MinDuration <= d <= MaxDuration
  }

  /** `t.Sub(u)`: the time elapsed from `u` to `t`, saturated to the range
      of a Duration when the exact difference does not fit. */
  function Sub(t: int, u: int): (d: int)
    ensures IsDuration(d)
    ensures IsDuration(t - u) ==> d == t - u
    ensures t - u > MaxDuration ==> d == MaxDuration
    ensures t - u < MinDuration ==> d == MinDuration
  {
    if t - u > MaxDuration then MaxDuration
    else if t - u < MinDuration then MinDuration
    else t - u
  }

  /** Saturation never changes the outcome of comparing an elapsed time
      with a representable bound above the minimum. */
  lemma SubBelowIff(t: int, u: int, bound: int)
    requires MinDuration < bound <= MaxDuration
    ensures Sub(t, u) < bound <==> t < u + bound
  {
  }
}
