/** The potentiometer filter: it holds its last value until a reading moves
    further than the threshold from it, then jumps to that reading. Only
    comparisons are involved, so the model is exact over the reals. */
module AntiJitter {
  /** `threshold` is the dead band; `last` the value held and returned. */
  datatype Filter = Filter(threshold: real, last: real)

  /** The constructor's default threshold. */
  const DefaultThreshold: real := 1.5

  function Abs(x: real): real
  {
    if x < 0.0 then -x else x
  }

  /** The constructor: the held value starts at zero. */
  function New(threshold: real): (f: Filter)
    ensures f.threshold == threshold && f.last == 0.0
  {
    Filter(threshold, 0.0)
  }

  /** `update(value)`: a reading strictly above `last + threshold` or strictly
      below `last - threshold` replaces the held value; the held value is
      returned either way. */
  function Update(f: Filter, value: real): (r: (Filter, real))
    ensures r.0.threshold == f.threshold
    ensures r.1 == r.0.last
    ensures r.0.last == value || r.0.last == f.last
  {
    if value > f.last + f.threshold || value < f.last - f.threshold then
      (f.(last := value), value)
    else
      (f, f.last)
  }

  /** The filter keeps its state exactly when the reading lies within the
      threshold of the held value, the boundary included, or equals it. With
      a negative threshold no reading lies within it and every new reading is
      taken. */
  lemma HoldsWithinThreshold(f: Filter, value: real)
    ensures Update(f, value).0 == f <==> Abs(value - f.last) <= f.threshold || value == f.last
    ensures Abs(value - f.last) <= f.threshold ==> Update(f, value).1 == f.last
    ensures Abs(value - f.last) > f.threshold ==> Update(f, value).1 == value
  {
  }

  /** With a non-negative threshold the returned value never lies further
      than the threshold from the reading. */
  lemma OutputTracksInput(f: Filter, value: real)
    requires f.threshold >= 0.0
    ensures Abs(Update(f, value).1 - value) <= f.threshold
  {
  }

  /** Feeding the same reading twice is the same as feeding it once. */
  lemma UpdateIdempotent(f: Filter, value: real)
    ensures var (g, x) := Update(f, value);
      Update(g, value) == (g, x)
  {
  }

  /** A fresh default filter ignores readings within 1.5 of zero and takes
      the first reading beyond it. */
  lemma DefaultFilterExample()
    ensures Update(New(DefaultThreshold), 1.5).1 == 0.0
    ensures Update(New(DefaultThreshold), -1.5).1 == 0.0
    ensures Update(New(DefaultThreshold), 1.75).1 == 1.75
  {
  }
}
