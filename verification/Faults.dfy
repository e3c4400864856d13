module Faults {
  // Whether a call fails: it may, if calls can fail at all.
  method MayFail(faulty: bool) returns (fails: bool)
    ensures fails ==> faulty
  {
    var drawn: bool := *;
    fails := faulty && drawn;
  }
}
