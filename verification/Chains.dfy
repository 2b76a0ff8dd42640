/** Chains of items linked by `next`, which end in NULL. */
module Chains {
  /** The i-th item of a chain; the end past the last. */
  ghost function At<T>(spine: seq<T>, i: nat, end: T): T {
    if i < |spine| then spine[i] else end
  }
}
