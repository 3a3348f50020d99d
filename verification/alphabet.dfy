/**
  The alphabet over which ranges, partitions and regular expressions are
  built. The crate abstracts it behind a trait offering a total order and a
  partial predecessor operation; this model fixes a concrete, bounded
  alphabet of integer code points with the same two capabilities.
 */
module Alphabet {

  /** The smallest letter: the only one without a predecessor. */
  const MinLetter: int := 0

  /** The largest letter (the largest Unicode scalar value). */
  const MaxLetter: int := 0x10FFFF

  type Letter = u: int | MinLetter <= u <= MaxLetter

  datatype Option<+T> = None | Some(value: T)

  /** The predecessor of `u`, or `None` at the bottom of the alphabet. */
  function Decrement(u: Letter): (p: Option<Letter>)
    ensures p.None? <==> u == MinLetter
    ensures p.Some? ==> p.value < u && u - p.value == 1
  {
    if u == MinLetter then None else Some(u - 1)
  }
}
