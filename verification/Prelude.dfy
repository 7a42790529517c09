/** Small things several models need. */
module Prelude {

  datatype Option<T> = None | Some(value: T)

  function Falses(n: nat): seq<bool> {
    seq(n, _ => false)
  }

  /** A nonzero multiple of `p` is at least `p` away from zero. */
  lemma MultipleIsFar(p: nat, d: int)
    ensures (d >= 1 ==> p * d >= p) && (d <= -1 ==> p * d + p <= 0)
  {
  }

  /** ASCII lower case. */
  function LowerChar(c: char): char {
    if 'A' <= c <= 'Z' then c + 32 as char else c
  }
}
