/** Fault scripts: which of a run of external operations (statements, connection attempts,
    router commands) fail. Entry `k` says whether operation `k` fails; past the end of the
    script every operation succeeds. */
module Faults {
  /** Whether operation `k` (counted from 0) of a fault script fails. */
  predicate FailsAt(faults: seq<bool>, k: nat)
  {
    k < |faults| && faults[k]
  }

  /** The script left after `n` operations. */
  function Drop(faults: seq<bool>, n: nat): seq<bool>
  {
    if n <= |faults| then faults[n..] else []
  }

  /** Operation `k` after the first `n` is operation `n + k` of the whole script. */
  lemma DropShifts(faults: seq<bool>, n: nat, k: nat)
    ensures FailsAt(Drop(faults, n), k) == FailsAt(faults, n + k)
  {
  }

  /** A clean script stays clean as it is consumed. */
  lemma CleanDrop(faults: seq<bool>, n: nat)
    requires Clean(faults)
    ensures Clean(Drop(faults, n))
  {
    forall k: nat
      ensures !FailsAt(Drop(faults, n), k)
    {
      DropShifts(faults, n, k);
    }
  }

  lemma DropDrop(faults: seq<bool>, m: nat, n: nat)
    ensures Drop(Drop(faults, m), n) == Drop(faults, m + n)
  {
    if m + n <= |faults| {
      assert faults[m..][n..] == faults[m + n..];
    }
  }

  /** The index of the first of the next `n` operations that fails, or `n` when none does. */
  function FirstFault(faults: seq<bool>, n: nat): (r: nat)
    ensures r <= n
    ensures forall k: nat :: k < r ==> !FailsAt(faults, k)
    ensures r < n ==> FailsAt(faults, r)
  {
    if n == 0 then 0
    else
      var p := FirstFault(faults, n - 1);
      if p < n - 1 then p else if FailsAt(faults, n - 1) then n - 1 else n
  }

  /** The index of the first of the next `n` operations that succeeds, or `n` when all fail. */
  function FirstPass(faults: seq<bool>, n: nat): (r: nat)
    ensures r <= n
    ensures forall k: nat :: k < r ==> FailsAt(faults, k)
    ensures r < n ==> !FailsAt(faults, r)
  {
    if n == 0 then 0
    else
      var p := FirstPass(faults, n - 1);
      if p < n - 1 then p else if !FailsAt(faults, n - 1) then n - 1 else n
  }

  /** A script under which nothing fails. */
  ghost predicate Clean(faults: seq<bool>)
  {
    forall k: nat :: !FailsAt(faults, k)
  }

  /** Operations `from` up to `to` (exclusive) all succeed. */
  ghost predicate PassesBetween(faults: seq<bool>, from: nat, to: nat)
  {
    forall k: nat :: from <= k < to ==> !FailsAt(faults, k)
  }

  /** Under a clean script every operation passes, so the first attempt does. */
  lemma CleanPassesFirst(faults: seq<bool>, n: nat)
    requires Clean(faults) && n > 0
    ensures FirstPass(faults, n) == 0 && FirstFault(faults, n) == n
  {
    assert !FailsAt(faults, 0);
  }
}
