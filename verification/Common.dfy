/** The few types that several modules share. */
module Common {
  datatype Option<T> = None | Some(value: T)

  function Max(a: int, b: int): int { if a < b then b else a }

  function Min(a: int, b: int): int { if a < b then a else b }

  /** A positive factor can be taken off a comparison. */
  lemma Smaller(k: int, a: int, b: int)
    requires k > 0 && k * a < k * b
    ensures a < b
  {
    assert k * (b - a) > 0;
  }

  type byte = x: int | 0 <= x < 256
}
