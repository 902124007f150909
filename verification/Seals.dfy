/** Sealing: an invariant stated as `forall u :: Opened(u) ==> ...` over a type that stands
    for it is passed on whole, and its parts are there only where `Opened` is mentioned at
    that type. Invariants that contain one another have a type each, so that opening the
    outer one leaves the inner ones closed.
 */
module Seals {
  /** Always true. */
  ghost predicate Opened<T>(seal: T) {
    true
  }
}
