// What the asked cache means: the names that were put to the Pi, and whether an
// answer came back.  Module AskedCache keeps this map in hash chains.
module AskOnce {
  import opened Prelude

  // MAX_CONCURRENT_GRAVITY_CHECKS.
  const MAX_CHECKS: nat := 8

  datatype AskState = Pending | Done

  type Asked = map<Name, AskState>

  // asked_cache_try_claim: only a name that is not there at all is claimed.
  function TryClaim(a: Asked, d: Name, gotMemory: bool): (r: (Asked, bool)) {
    if d in a || !gotMemory then (a, false) else (a[d := Pending], true)
  }

  // asked_cache_mark_done: a success stays, a failure makes the name new again.
  function MarkDone(a: Asked, d: Name, succeeded: bool): Asked {
    if d !in a then a
    else if succeeded then a[d := Done]
    else a - {d}
  }
}
