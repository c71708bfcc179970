/**
 What several modules share: an optional value, bytes as numbers, the smaller of two numbers, and the
 associativity of concatenation.

 The last is true of all sequences, but the verifier does not use it unless it is told to; the proofs name
 it where a loop has appended to a result what a recursive definition puts in front of the rest.
 */
module Common {

  datatype Option<T> = None | Some(value: T)

  type Byte = n: nat | n < 256

  function Min(a: int, b: int): int { if a < b then a else b }

  lemma Regroup<T>(a: seq<T>, b: seq<T>, c: seq<T>)
    ensures a + (b + c) == (a + b) + c
  {
  }
}
