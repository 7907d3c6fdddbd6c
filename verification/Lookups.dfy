/** The constant tables of bzip2, which the proofs leave open. */
module Lookups {
  import opened Bytes

  type pos = x: nat | x > 0 witness 1

  /**
   * How a checksum starts, takes in a byte, is finished, and is joined to that of the blocks before; and the
   * table of distances that randomised blocks go by.
   */
  datatype Lookup = Lookup(init: nat, step: (nat, byte) -> nat, final: nat -> nat, join: (nat, nat) -> nat, random: nat -> pos)
}
