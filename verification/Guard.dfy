/** A trigger for stating an invariant so that it is unfolded only on demand. */
module Guard {

  // `forall z {:trigger Look(z)} :: Look(z) ==> P()` is P(), unfolded only where a proof says `assert Look(0)`.
  predicate Look(z: int) {
    true
  }

  // Two more of them, for invariants that are unfolded independently of the first.

  predicate Watch(z: int) {
    true
  }

  predicate Gaze(z: int) {
    true
  }
}
