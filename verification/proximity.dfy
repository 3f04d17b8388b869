/**
 The proximity classifier: given the centroids of one frame's detections,
 the set of indices of people standing closer than the safe distance to at
 least one other person.
 */
module Proximity {
  import opened Detection

  function Sq(a: int): nat {
    a * a
  }

  /** The squared Euclidean distance between two centroids. */
  function SqDist(p: Point, q: Point): nat {
    Sq(p.x - q.x) + Sq(p.y - q.y)
  }

  /**
   Two centroids are too close when their Euclidean distance is strictly
   below `minDist`; over integers this is the squared distance compared with
   `minDist` squared.
   */
  predicate Close(p: Point, q: Point, minDist: nat) {
    SqDist(p, q) < minDist * minDist
  }

  /**
   The square-root comparison of the source and the squared comparison of the
   model agree: for the distance `dist` (the non-negative root of the squared
   distance) `dist < minDist` exactly when `Close` holds. In particular a
   distance of exactly `minDist` is not a violation.
   */
  lemma CloseIffDistanceBelow(p: Point, q: Point, minDist: nat, dist: real)
    requires dist >= 0.0 && dist * dist == SqDist(p, q) as real
    ensures Close(p, q, minDist) <==> dist < minDist as real
    ensures dist == minDist as real ==> !Close(p, q, minDist)
  {
    SquareMonotone(dist, minDist as real);
    assert (minDist * minDist) as real == (minDist as real) * (minDist as real);
  }

  /** For non-negative reals, comparing the squares compares the numbers. */
  lemma SquareMonotone(a: real, b: real)
    requires a >= 0.0 && b >= 0.0
    ensures a < b <==> a * a < b * b
  {
    if a < b {
      calc {
        a * a;
      <= { MulLeftMonotone(a, a, b); }
        a * b;
      < { MulLeftStrict(b, a, b); }
        b * b;
      }
    } else {
      calc {
        b * b;
      <= { MulLeftMonotone(b, b, a); }
        b * a;
      <= { MulLeftMonotone(a, b, a); }
        a * a;
      }
    }
  }

  lemma MulLeftMonotone(c: real, x: real, y: real)
    requires c >= 0.0 && x <= y
    ensures c * x <= c * y
  {
  }

  lemma MulLeftStrict(c: real, x: real, y: real)
    requires c > 0.0 && x < y
    ensures x * c < y * c
  {
  }

  lemma CloseSymmetric(p: Point, q: Point, minDist: nat)
    ensures Close(p, q, minDist) <==> Close(q, p, minDist)
  {
  }

  /** The inner loop for row `i`: the pairs `(i, j')` with `j <= j' < |cs|` that are too close. */
  function Row(cs: seq<Point>, minDist: nat, i: nat, j: nat): (r: set<nat>)
    requires i < |cs|
    ensures forall k :: k in r ==> k < |cs|
    decreases |cs| - j
  {
    if j >= |cs| then {}
    else (if Close(cs[i], cs[j], minDist) then {i, j} else {}) + Row(cs, minDist, i, j + 1)
  }

  /** The outer loop from row `i` on: every row `i' >= i`, each scanning `j > i'`. */
  function Rows(cs: seq<Point>, minDist: nat, i: nat): (r: set<nat>)
    ensures forall k :: k in r ==> k < |cs|
    decreases |cs| - i
  {
    if i >= |cs| then {}
    else Row(cs, minDist, i, i + 1) + Rows(cs, minDist, i + 1)
  }

  /**
   The violation set of a frame: empty with fewer than two centroids,
   otherwise both members of every pair `i < j` that are too close.
   */
  function Violations(cs: seq<Point>, minDist: nat): (v: set<nat>)
    ensures |cs| < 2 ==> v == {}
    ensures forall k :: k in v ==> k < |cs|
  {
    if |cs| < 2 then {} else Rows(cs, minDist, 0)
  }

  /** Index `k` is too close to some other centroid of the frame. */
  ghost predicate Violates(cs: seq<Point>, minDist: nat, k: nat) {
    k < |cs| && exists m :: 0 <= m < |cs| && m != k && Close(cs[k], cs[m], minDist)
  }

  lemma {:induction false} RowSound(cs: seq<Point>, minDist: nat, i: nat, j: nat, k: nat)
    requires i < j && i < |cs|
    requires k in Row(cs, minDist, i, j)
    ensures Violates(cs, minDist, k)
    decreases |cs| - j
  {
    if j < |cs| {
      if Close(cs[i], cs[j], minDist) && k in {i, j} {
        CloseSymmetric(cs[i], cs[j], minDist);
      } else {
        RowSound(cs, minDist, i, j + 1, k);
      }
    }
  }

  lemma {:induction false} RowsSound(cs: seq<Point>, minDist: nat, i: nat, k: nat)
    requires k in Rows(cs, minDist, i)
    ensures Violates(cs, minDist, k)
    decreases |cs| - i
  {
    if i < |cs| {
      if k in Row(cs, minDist, i, i + 1) {
        RowSound(cs, minDist, i, i + 1, k);
      } else {
        RowsSound(cs, minDist, i + 1, k);
      }
    }
  }

  lemma {:induction false} RowComplete(cs: seq<Point>, minDist: nat, i: nat, j: nat, m: nat)
    requires i < |cs| && j <= m < |cs|
    requires Close(cs[i], cs[m], minDist)
    ensures i in Row(cs, minDist, i, j) && m in Row(cs, minDist, i, j)
    decreases |cs| - j
  {
    if j < m {
      RowComplete(cs, minDist, i, j + 1, m);
    }
  }

  lemma {:induction false} RowsComplete(cs: seq<Point>, minDist: nat, i: nat, a: nat, b: nat)
    requires i <= a < b < |cs|
    requires Close(cs[a], cs[b], minDist)
    ensures a in Rows(cs, minDist, i) && b in Rows(cs, minDist, i)
    decreases |cs| - i
  {
    if i < a {
      RowsComplete(cs, minDist, i + 1, a, b);
    } else {
      RowComplete(cs, minDist, a, a + 1, b);
    }
  }

  /** Soundness: nobody is flagged alone; a flagged index has a too-close partner. */
  lemma ViolationsSound(cs: seq<Point>, minDist: nat, k: nat)
    requires k in Violations(cs, minDist)
    ensures k < |cs|
    ensures exists m :: 0 <= m < |cs| && m != k && Close(cs[k], cs[m], minDist)
  {
    RowsSound(cs, minDist, 0, k);
  }

  /** Completeness: both members of every too-close pair `i < j` are flagged. */
  lemma ViolationsComplete(cs: seq<Point>, minDist: nat, i: nat, j: nat)
    requires i < j < |cs|
    requires Close(cs[i], cs[j], minDist)
    ensures i in Violations(cs, minDist) && j in Violations(cs, minDist)
  {
    RowsComplete(cs, minDist, 0, i, j);
  }

  /**
   The violation set is exactly the set of indices with a too-close partner,
   whichever of the two comes first in the frame.
   */
  lemma ViolationsCharacterization(cs: seq<Point>, minDist: nat)
    ensures forall k: nat :: k in Violations(cs, minDist) <==> Violates(cs, minDist, k)
  {
    forall k: nat | Violates(cs, minDist, k)
      ensures k in Violations(cs, minDist)
    {
      var m :| 0 <= m < |cs| && m != k && Close(cs[k], cs[m], minDist);
      if k < m {
        ViolationsComplete(cs, minDist, k, m);
      } else {
        CloseSymmetric(cs[k], cs[m], minDist);
        ViolationsComplete(cs, minDist, m, k);
      }
    }
    forall k: nat | k in Violations(cs, minDist)
      ensures Violates(cs, minDist, k)
    {
      ViolationsSound(cs, minDist, k);
    }
  }

  /** Every flagged index is a valid index into the frame's detections. */
  lemma ViolationsInRange(cs: seq<Point>, minDist: nat)
    ensures forall k :: k in Violations(cs, minDist) ==> k < |cs|
    ensures |Violations(cs, minDist)| <= |cs|
  {
    ViolationsCharacterization(cs, minDist);
    BoundedSetCard(Violations(cs, minDist), |cs|);
  }

  /** A set of indices below `n` has at most `n` elements. */
  lemma {:induction false} BoundedSetCard(v: set<nat>, n: nat)
    requires forall k :: k in v ==> k < n
    ensures |v| <= n
  {
    if n > 0 {
      var rest := v - {n - 1};
      BoundedSetCard(rest, n - 1);
      assert v <= rest + {n - 1};
      assert |v| <= |rest + {n - 1}| <= |rest| + 1;
    } else {
      assert v == {};
    }
  }

  /** `cs` listed in the order `perm` gives: position `k` holds `cs[perm[k]]`. */
  function Reorder(cs: seq<Point>, perm: seq<nat>): seq<Point>
    requires forall k :: 0 <= k < |perm| ==> perm[k] < |cs|
  {
    seq(|perm|, k requires 0 <= k < |perm| => cs[perm[k]])
  }

  /** `perm` lists each index of an `n`-element sequence exactly once. */
  ghost predicate IsPermutation(perm: seq<nat>, n: nat) {
    && |perm| == n
    && (forall k :: 0 <= k < n ==> perm[k] < n)
    && (forall k, l :: 0 <= k < l < n ==> perm[k] != perm[l])
    && (forall j: nat :: j < n ==> j in perm)
  }

  /**
   Whether a person is flagged does not depend on the order in which the
   detector listed the people: reordering the centroids reorders the flags.
   */
  lemma ViolationsInvariantUnderReordering(cs: seq<Point>, perm: seq<nat>, minDist: nat)
    requires IsPermutation(perm, |cs|)
    ensures forall k :: 0 <= k < |cs| ==>
              (k in Violations(Reorder(cs, perm), minDist) <==> perm[k] in Violations(cs, minDist))
  {
    var rs := Reorder(cs, perm);
    ViolationsCharacterization(cs, minDist);
    ViolationsCharacterization(rs, minDist);
    forall k | 0 <= k < |cs|
      ensures Violates(rs, minDist, k) <==> Violates(cs, minDist, perm[k])
    {
      if Violates(rs, minDist, k) {
        var m :| 0 <= m < |rs| && m != k && Close(rs[k], rs[m], minDist);
        assert perm[m] != perm[k] by {
          if m < k { assert perm[m] != perm[k]; } else { assert perm[k] != perm[m]; }
        }
        assert Close(cs[perm[k]], cs[perm[m]], minDist);
      }
      if Violates(cs, minDist, perm[k]) {
        var m' :| 0 <= m' < |cs| && m' != perm[k] && Close(cs[perm[k]], cs[m'], minDist);
        assert m' in perm;
        var m :| 0 <= m < |cs| && perm[m] == m';
        assert m != k;
        assert Close(rs[k], rs[m], minDist);
      }
    }
  }

  /**
   The two nested loops over pairs `i < j`, adding both indices of each
   too-close pair to the set.
   */
  method ClassifyViolations(cs: seq<Point>, minDist: nat) returns (violate: set<nat>)
    ensures violate == Violations(cs, minDist)
    ensures forall k :: k in violate <==> Violates(cs, minDist, k)
  {
    violate := {};
    if |cs| >= 2 {
      var i := 0;
      while i < |cs|
        invariant i <= |cs|
        invariant violate + Rows(cs, minDist, i) == Rows(cs, minDist, 0)
      {
        var j := i + 1;
        while j < |cs|
          invariant i + 1 <= j <= |cs|
          invariant violate + Row(cs, minDist, i, j) + Rows(cs, minDist, i + 1) == Rows(cs, minDist, 0)
        {
          if Close(cs[i], cs[j], minDist) {
            violate := violate + {i, j};
          }
          j := j + 1;
        }
        i := i + 1;
      }
    }
    ViolationsCharacterization(cs, minDist);
  }
}
