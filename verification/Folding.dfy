/** Guards that keep definitions folded. */
module Folding {
  // What a definition states for every `n` with `Unfold(n)` stays folded until a proof mentions it.
  ghost predicate Unfold(n: nat) {
    n >= 0
  }

  // A second guard, for definitions to stay folded where those of the first kind are unfolded.
  ghost predicate Unpack(n: nat) {
    n >= 0
  }
}
