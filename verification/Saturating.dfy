/** Unsigned arithmetic as the counters use it. */
module Saturating {
  function Min(a: nat, b: nat): nat {
    if a <= b then a else b
  }

  /** Subtraction that stops at zero. */
  function Less(a: nat, b: nat): nat {
    if a <= b then 0 else a - b
  }
}
