/**
 * What the mesh walks accumulate.
 *
 * Each query evaluates one flag per visited half-edge (creased, boundary
 * origin, triangle head, ...) and keeps a running count of the flags set,
 * or appends entries to a list its caller owns. `CountFirst` is the
 * reference the counting loops are proved against; like a walk, it grows
 * at the end.
 */
module WalkRecords {

  /** How many of the first `n` flags are set. */
  function CountFirst(bs: seq<bool>, n: nat): (c: nat)
    requires n <= |bs|
    ensures c <= n
  {
    if n == 0 then 0 else CountFirst(bs, n - 1) + (if bs[n - 1] then 1 else 0)
  }

  /** How many flags are set. */
  function Count(bs: seq<bool>): (c: nat)
    ensures c <= |bs|
  {
    CountFirst(bs, |bs|)
  }

  /** The count is the number of flagged positions. */
  lemma {:induction false} CountFirstIsCardinality(bs: seq<bool>, n: nat)
    requires n <= |bs|
    ensures CountFirst(bs, n) == |set i | 0 <= i < n && bs[i]|
  {
    var t := set i | 0 <= i < n && bs[i];
    if n == 0 {
      assert t == {};
    } else {
      CountFirstIsCardinality(bs, n - 1);
      var s := set i | 0 <= i < n - 1 && bs[i];
      if bs[n - 1] {
        assert t == s + {n - 1};
        assert n - 1 !in s;
      } else {
        assert t == s;
      }
    }
  }

  /** The count is zero exactly when no flag among the first `n` is set. */
  lemma {:induction false} CountFirstZero(bs: seq<bool>, n: nat)
    requires n <= |bs|
    ensures CountFirst(bs, n) == 0 <==> forall i :: 0 <= i < n ==> !bs[i]
  {
    if n > 0 {
      CountFirstZero(bs, n - 1);
    }
  }

  /** A flag set in [a, b) makes the count at b exceed the count at a. */
  lemma {:induction false} CountGrows(bs: seq<bool>, a: nat, k: nat, b: nat)
    requires a <= k < b <= |bs| && bs[k]
    ensures CountFirst(bs, a) + 1 <= CountFirst(bs, b)
    decreases b
  {
    if b == k + 1 {
      CountMonotone(bs, a, k);
    } else {
      CountGrows(bs, a, k, b - 1);
    }
  }

  /** The count never decreases along the walk. */
  lemma {:induction false} CountMonotone(bs: seq<bool>, a: nat, b: nat)
    requires a <= b <= |bs|
    ensures CountFirst(bs, a) <= CountFirst(bs, b)
    decreases b
  {
    if a < b {
      CountMonotone(bs, a, b - 1);
    }
  }

  /**
   * With two flags set in all, the position with no flag before it and the
   * position with one flag before it are, in that order, the only flagged
   * positions.
   */
  lemma FirstTwoFlagged(bs: seq<bool>, i: nat, j: nat)
    requires Count(bs) == 2
    requires i < |bs| && bs[i] && CountFirst(bs, i) == 0
    requires j < |bs| && bs[j] && CountFirst(bs, j) == 1
    ensures i < j
    ensures forall k :: 0 <= k < |bs| && bs[k] ==> k == i || k == j
  {
    if j <= i {
      CountGrows(bs, j, j, i + 1);
    }
    forall k | 0 <= k < |bs| && bs[k]
      ensures k == i || k == j
    {
      if k < i {
        CountGrows(bs, k, k, i);
      } else if i < k < j {
        CountGrows(bs, i, i, k);
        CountGrows(bs, k, k, j);
      } else if j < k {
        CountGrows(bs, j, j, k);
        CountGrows(bs, k, k, |bs|);
      }
    }
  }

  /** When only positions a < b are flagged, the count is 0 up to a, 1 up to b and 2 after. */
  lemma {:induction false} CountOnlyTwo(bs: seq<bool>, a: nat, b: nat, n: nat)
    requires a < b < |bs| && bs[a] && bs[b] && n <= |bs|
    requires forall k :: 0 <= k < |bs| && bs[k] ==> k == a || k == b
    ensures CountFirst(bs, n) == if n <= a then 0 else if n <= b then 1 else 2
  {
    if n > 0 {
      CountOnlyTwo(bs, a, b, n - 1);
    }
  }

  /** Exactly the positions i < j are flagged. */
  ghost predicate FlaggedExactlyAt(bs: seq<bool>, i: nat, j: nat)
  {
    i < j < |bs| && bs[i] && bs[j] && OnlyFlaggedAt(bs, i, j)
  }

  /** Two flagged positions and no other make a count of two. */
  lemma FlaggedExactlyCount(bs: seq<bool>)
    ensures forall a: nat, b: nat :: FlaggedExactlyAt(bs, a, b) ==> Count(bs) == 2
  {
    forall a: nat, b: nat | FlaggedExactlyAt(bs, a, b)
      ensures Count(bs) == 2
    {
      CountOnlyTwo(bs, a, b, |bs|);
    }
  }

  /**
   * Given the first flagged position (no flag before it) and the second (one
   * flag before it): exactly two positions are flagged when these two are,
   * and no other pair can be.
   */
  lemma FirstTwoExactly(bs: seq<bool>, i: nat, j: nat)
    requires i < |bs| && bs[i] && CountFirst(bs, i) == 0
    requires j < |bs| && bs[j] && CountFirst(bs, j) == 1
    requires Count(bs) == 2
    ensures FlaggedExactlyAt(bs, i, j)
    ensures forall a: nat, b: nat :: FlaggedExactlyAt(bs, a, b) ==> a == i && b == j
  {
    FirstTwoFlagged(bs, i, j);
  }

  /** Appending in two steps is appending the two parts at once. */
  lemma AppendAssoc<T>(a: seq<T>, b: seq<T>, c: seq<T>)
    ensures (a + b) + c == a + (b + c)
  {
  }

  // ---------------------------------------------------------------------------
  // Lists built along a walk

  /** The pairs xs[t], ys[t] of the first `n` positions, one pair after another. */
  function Interleave<T>(xs: seq<T>, ys: seq<T>, n: nat): seq<T>
    requires n <= |xs| && n <= |ys|
  {
    if n == 0 then [] else Interleave(xs, ys, n - 1) + [xs[n - 1], ys[n - 1]]
  }

  /** The interleaving holds 2n entries: xs[t] at 2t and ys[t] at 2t + 1. */
  lemma {:induction false} InterleaveAt<T>(xs: seq<T>, ys: seq<T>, n: nat)
    requires n <= |xs| && n <= |ys|
    ensures |Interleave(xs, ys, n)| == 2 * n
    ensures forall t :: 0 <= t < n ==>
      Interleave(xs, ys, n)[2 * t] == xs[t] && Interleave(xs, ys, n)[2 * t + 1] == ys[t]
  {
    if n > 0 {
      InterleaveAt(xs, ys, n - 1);
    }
  }

  /** The entries of `xs` at the flagged positions among the first `n`, in order. */
  function Select<T>(bs: seq<bool>, xs: seq<T>, n: nat): seq<T>
    requires n <= |bs| && n <= |xs|
  {
    if n == 0 then [] else Select(bs, xs, n - 1) + (if bs[n - 1] then [xs[n - 1]] else [])
  }

  /**
   * One entry per flag set, and the entry of the flagged position t sits at
   * the number of flags set before t.
   */
  lemma {:induction false} SelectAt<T>(bs: seq<bool>, xs: seq<T>, n: nat)
    requires n <= |bs| && n <= |xs|
    ensures |Select(bs, xs, n)| == CountFirst(bs, n)
    ensures forall t :: 0 <= t < n && bs[t] ==>
      CountFirst(bs, t) < |Select(bs, xs, n)| && Select(bs, xs, n)[CountFirst(bs, t)] == xs[t]
  {
    if n > 0 {
      SelectAt(bs, xs, n - 1);
      var prev := Select(bs, xs, n - 1);
      forall t | 0 <= t < n - 1 && bs[t]
        ensures Select(bs, xs, n)[CountFirst(bs, t)] == xs[t]
      {
        assert Select(bs, xs, n)[CountFirst(bs, t)] == prev[CountFirst(bs, t)];
      }
    }
  }

  /** With exactly the positions a < b flagged, the selection is their two entries. */
  lemma SelectTwo<T>(bs: seq<bool>, xs: seq<T>, a: nat, b: nat)
    requires |xs| == |bs| && a < b < |bs| && bs[a] && bs[b]
    requires forall k :: 0 <= k < |bs| && bs[k] ==> k == a || k == b
    ensures Select(bs, xs, |bs|) == [xs[a], xs[b]]
  {
    SelectAt(bs, xs, |bs|);
    CountOnlyTwo(bs, a, b, a);
    CountOnlyTwo(bs, a, b, b);
    CountOnlyTwo(bs, a, b, |bs|);
  }

  /** The set of the first `n` entries of `xs`. */
  function Elements<T>(xs: seq<T>, n: nat): set<T>
    requires n <= |xs|
  {
    if n == 0 then {} else Elements(xs, n - 1) + {xs[n - 1]}
  }

  /** A value is collected exactly when it is one of the first `n` entries. */
  lemma {:induction false} ElementsAt<T>(xs: seq<T>, n: nat)
    requires n <= |xs|
    ensures forall x :: x in Elements(xs, n) <==> exists t :: 0 <= t < n && xs[t] == x
  {
    if n > 0 {
      ElementsAt(xs, n - 1);
    }
  }

  /** Distinct entries give a set of as many elements as entries. */
  lemma {:induction false} ElementsDistinct<T>(xs: seq<T>, n: nat)
    requires n <= |xs|
    requires forall i, j :: 0 <= i < j < n ==> xs[i] != xs[j]
    ensures |Elements(xs, n)| == n
  {
    if n > 0 {
      ElementsDistinct(xs, n - 1);
      ElementsAt(xs, n - 1);
      assert xs[n - 1] !in Elements(xs, n - 1);
    }
  }

  /** The sum of the entries of `ss` at the flagged positions among the first `n`. */
  function SumSelected(bs: seq<bool>, ss: seq<real>, n: nat): real
    requires n <= |bs| && n <= |ss|
  {
    if n == 0 then 0.0 else SumSelected(bs, ss, n - 1) + (if bs[n - 1] then ss[n - 1] else 0.0)
  }

  /** When every flagged entry is `s`, their sum is `s` times their number. */
  lemma {:induction false} SumSelectedUniform(bs: seq<bool>, ss: seq<real>, n: nat, s: real)
    requires n <= |bs| && n <= |ss|
    requires forall t :: 0 <= t < n && bs[t] ==> ss[t] == s
    ensures SumSelected(bs, ss, n) == s * (CountFirst(bs, n) as real)
  {
    if n > 0 {
      SumSelectedUniform(bs, ss, n - 1, s);
      var c := CountFirst(bs, n - 1) as real;
      assert s * (c + 1.0) == s * c + s;
    }
  }

  /** When every flagged entry is `s` and at least one is flagged, their average is `s`. */
  lemma SumSelectedAverage(bs: seq<bool>, ss: seq<real>, s: real)
    requires |bs| == |ss| && Count(bs) > 0
    requires forall t :: 0 <= t < |bs| && bs[t] ==> ss[t] == s
    ensures SumSelected(bs, ss, |bs|) / (Count(bs) as real) == s
  {
    SumSelectedUniform(bs, ss, |bs|, s);
    var c := Count(bs) as real;
    assert SumSelected(bs, ss, |bs|) == s * c;
    DivCancel(s, c);
  }

  lemma DivCancel(s: real, c: real)
    requires c != 0.0
    ensures (s * c) / c == s
  {
  }

  // ---------------------------------------------------------------------------
  // Creases met round a vertex

  /** Which sharpness values mark a crease: the positive ones. */
  function Creased(ss: seq<real>): (bs: seq<bool>)
    ensures |bs| == |ss|
  {
    seq(|ss|, k requires 0 <= k < |ss| => ss[k] > 0.0)
  }

  /** No flag is set except possibly at positions i and j. */
  ghost predicate OnlyFlaggedAt(bs: seq<bool>, i: nat, j: nat)
  {
    forall k :: 0 <= k < |bs| && k != i && k != j ==> !bs[k]
  }

  /** Positions i and i + 2 are creases of one sharpness, and no other position is. */
  ghost predicate StraightAt(ss: seq<real>, i: nat)
  {
    i + 2 < |ss| && ss[i] > 0.0 && ss[i] == ss[i + 2] && OnlyFlaggedAt(Creased(ss), i, i + 2)
  }

  /**
   * A crease passing straight through a vertex: exactly two creases, of
   * equal sharpness, two walk positions apart.
   */
  ghost predicate StraightCrease(ss: seq<real>)
  {
    exists i: nat :: StraightAt(ss, i)
  }

  /** A straight crease means exactly two creases. */
  lemma StraightCreaseHasTwo(ss: seq<real>)
    requires StraightCrease(ss)
    ensures Count(Creased(ss)) == 2
  {
    var i: nat :| StraightAt(ss, i);
    CountOnlyTwo(Creased(ss), i, i + 2, |ss|);
  }

  /**
   * Given the first crease (none before it) and the second (one before it),
   * of equal sharpness, there is a straight crease exactly when there are
   * two creases in all and they are two positions apart.
   */
  lemma StraightCreaseByFirstTwo(ss: seq<real>, i: nat, j: nat)
    requires i < |ss| && ss[i] > 0.0 && CountFirst(Creased(ss), i) == 0
    requires j < |ss| && ss[j] > 0.0 && CountFirst(Creased(ss), j) == 1
    requires ss[i] == ss[j]
    ensures StraightCrease(ss) <==> Count(Creased(ss)) == 2 && j - i == 2
  {
    var bs := Creased(ss);
    if Count(bs) == 2 {
      FirstTwoFlagged(bs, i, j);
      if StraightCrease(ss) {
        var i0: nat :| StraightAt(ss, i0);
        assert bs[i0] && bs[i0 + 2];
      }
      if j - i == 2 {
        assert StraightAt(ss, i);
      }
    } else if StraightCrease(ss) {
      StraightCreaseHasTwo(ss);
    }
  }

  /** Two creases of different sharpness rule out a straight crease. */
  lemma MixedSharpnessNotStraight(ss: seq<real>, i: nat, j: nat)
    requires i < |ss| && j < |ss| && ss[i] > 0.0 && ss[j] > 0.0 && ss[i] != ss[j]
    ensures !StraightCrease(ss)
  {
    var bs := Creased(ss);
    assert bs[i] && bs[j];
    forall i0: nat | i0 + 2 < |ss| && ss[i0] > 0.0 && ss[i0] == ss[i0 + 2]
      ensures !OnlyFlaggedAt(bs, i0, i0 + 2)
    {
      if i != i0 && i != i0 + 2 {
        assert bs[i];
      } else if j != i0 && j != i0 + 2 {
        assert bs[j];
      } else {
        assert false;
      }
    }
  }
}
