/**
 * Orbits of a navigation map over an arena of half-edges.
 *
 * A navigation map (around-vertex or around-face "next") is a sequence whose
 * entry i names the successor of half-edge i. Every query of the mesh walks
 * such a map with `do { ... cur = next(cur) } while (cur != start)`; the
 * walk terminates exactly when `start` comes back, and the number of steps
 * it takes is the orbit's period.
 */
module Orbits {

  /** Every entry names a half-edge of the same arena. */
  ghost predicate IsMap(next: seq<nat>)
  {
    forall i :: 0 <= i < |next| ==> next[i] < |next|
  }

  /** `prev` undoes `next`. */
  ghost predicate LeftInverse(prev: seq<nat>, next: seq<nat>)
    requires IsMap(next)
  {
    |prev| == |next| && forall i :: 0 <= i < |next| ==> prev[next[i]] == i
  }

  /** The half-edge reached from `e` after `k` steps. */
  function Iter(next: seq<nat>, e: nat, k: nat): (r: nat)
    requires IsMap(next) && e < |next|
    ensures r < |next|
    decreases k
  {
    if k == 0 then e else next[Iter(next, e, k - 1)]
  }

  /** The walk from `e` comes back to `e` within as many steps as there are half-edges. */
  ghost predicate Returns(next: seq<nat>, e: nat)
    requires IsMap(next) && e < |next|
  {
    exists n :: 1 <= n <= |next| && Iter(next, e, n) == e
  }

  /** The first step count from `k` on at which the walk is back at `e` (|next| if none). */
  function FirstReturn(next: seq<nat>, e: nat, k: nat): (r: nat)
    requires IsMap(next) && e < |next| && 1 <= k <= |next|
    ensures k <= r <= |next|
    ensures forall j :: k <= j < r ==> Iter(next, e, j) != e
    ensures (exists n :: k <= n <= |next| && Iter(next, e, n) == e) ==> Iter(next, e, r) == e
    decreases |next| - k
  {
    if k == |next| || Iter(next, e, k) == e then k else FirstReturn(next, e, k + 1)
  }

  /** The length of the orbit of `e`: the least positive number of steps that returns to `e`. */
  function Period(next: seq<nat>, e: nat): (p: nat)
    requires IsMap(next) && e < |next|
    ensures 1 <= p <= |next|
    ensures forall j :: 1 <= j < p ==> Iter(next, e, j) != e
  {
    FirstReturn(next, e, 1)
  }

  /** A walk that returns is back at its start after exactly one period. */
  lemma PeriodReturns(next: seq<nat>, e: nat)
    requires IsMap(next) && e < |next| && Returns(next, e)
    ensures Iter(next, e, Period(next, e)) == e
  {
  }

  /** The half-edges visited by a do/while walk from `e`, in walk order. */
  function Orbit(next: seq<nat>, e: nat): (o: seq<nat>)
    requires IsMap(next) && e < |next|
    ensures |o| == Period(next, e) && o[0] == e
    ensures forall k :: 0 <= k < |o| ==> o[k] < |next|
  {
    seq(Period(next, e), k requires 0 <= k => Iter(next, e, k))
  }

  /** When `next` can be undone, two positions of a walk that meet are a whole number of returns apart. */
  lemma {:induction false} IterCancel(next: seq<nat>, prev: seq<nat>, e: nat, i: nat, j: nat)
    requires IsMap(next) && e < |next| && LeftInverse(prev, next)
    requires i <= j && Iter(next, e, i) == Iter(next, e, j)
    ensures Iter(next, e, j - i) == e
    decreases i
  {
    if i > 0 {
      assert prev[next[Iter(next, e, i - 1)]] == Iter(next, e, i - 1);
      assert prev[next[Iter(next, e, j - 1)]] == Iter(next, e, j - 1);
      IterCancel(next, prev, e, i - 1, j - 1);
    }
  }

  /** An orbit visits no half-edge twice. */
  lemma OrbitDistinct(next: seq<nat>, prev: seq<nat>, e: nat)
    requires IsMap(next) && e < |next| && LeftInverse(prev, next)
    ensures forall i, j :: 0 <= i < j < |Orbit(next, e)| ==> Orbit(next, e)[i] != Orbit(next, e)[j]
  {
    var o := Orbit(next, e);
    forall i, j | 0 <= i < j < |o|
      ensures o[i] != o[j]
    {
      if o[i] == o[j] {
        IterCancel(next, prev, e, i, j);
      }
    }
  }
}
