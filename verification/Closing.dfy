/** Keeping definitions out of proofs that do not need them. */
module Closing {

  /** Always true. A definition under "forall u :: Look(u) ==> ..." stays closed until a proof mentions Look. */
  ghost predicate Look(u: int) {
    true
  }

  /** The same for definitions of one proof that are opened one by one; each has its number k. */
  ghost predicate Peek(k: int, u: int) {
    true
  }
}
