/** Real instants and the windows that hold them. */
module Instants {
  function Min(a: real, b: real): real { if a <= b then a else b }
  function Max(a: real, b: real): real { if a >= b then a else b }

  /** Which of the instants fall in a closed window. */
  ghost function InWindow(ts: seq<real>, from: real, to: real): set<nat> {
    set i: nat | i < |ts| && from <= ts[i] <= to
  }
}
