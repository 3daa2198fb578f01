/**
  The destination arithmetic of the MoveUp and MoveDown arms of the
  MoveEntry handler (src/event_loop/action_handlers/move_entry.rs).

  Throughout, `s` is the zero-based slot `selected - 1` and `l` is the page
  length minus one, so a slot `j` is on the page exactly when `j <= l`.
  Rust's `%` truncates toward zero. The functions that model the code as
  written apply `%` only to non-negative operands, where it agrees with
  Dafny's. The corrected MoveUp functions apply it to `s - n`, which is
  negative when `n > s`: they need the Euclidean remainder (`rem_euclid`
  in Rust), which is what Dafny's `%` computes.
 */
module MoveTarget {

  /** MoveDown's destination (lines 58-65): step `n` forward modulo `l`, then skip over slot `s`. */
  function MoveDownTarget(s: nat, n: nat, l: nat): (j: nat)
    requires l > 0
    ensures j != s
    ensures j <= l
  {
    var j := (s + n) % l;
    if j >= s then j + 1 else j
  }

  /**
    MoveUp's destination as written (lines 27-39): a negative candidate is
    folded to `l - (|j| % l)`, which is `l` itself when `|j|` is a multiple of `l`.
   */
  function MoveUpTarget(s: nat, n: nat, l: nat): (j: int)
    requires l > 0
    ensures j >= 0 && j != s
  {
    var j := s - n;
    var j := if j < 0 then l - (-j) % l else j;
    if j >= s then j + 1 else j
  }

  /** MoveUp's destination as intended: step `n` backward modulo `l`, then skip over slot `s`. */
  function MoveUpIntended(s: nat, n: nat, l: nat): (j: nat)
    requires l > 0
    ensures j != s
    ensures j <= l
  {
    var j := (s - n) % l;
    if j >= s then j + 1 else j
  }

  /**
    MoveDown with the skip moved to the dragged entry's own slot `s + 1`:
    the same walk over the `l` entries other than the dragged one, so the
    destination is never the dragged entry.
   */
  function MoveDownSkippingDragged(s: nat, n: nat, l: nat): (j: nat)
    requires l > 0
    ensures j != s + 1
    ensures j <= l
  {
    var j := (s + n) % l;
    if j > s then j + 1 else j
  }

  /** MoveUp as intended: circular wrap, and the skip over the dragged entry's slot `s + 1`. */
  function MoveUpSkippingDragged(s: nat, n: nat, l: nat): (j: nat)
    requires l > 0
    ensures j != s + 1
    ensures j <= l
  {
    var j := (s - n) % l;
    if j > s then j + 1 else j
  }

  // ---------------------------------------------------------------------------
  // Arithmetic helpers

  lemma MulAtLeast(a: int, l: int)
    requires a >= 1 && l > 0
    ensures a * l >= l
  {
  }

  /** Euclidean remainders are unique. */
  lemma ModUnique(x: int, l: int, q: int, r: int)
    requires l > 0 && 0 <= r < l && x == q * l + r
    ensures x % l == r
  {
    var q0, r0 := x / l, x % l;
    assert (q - q0) * l == r0 - r;
    if q > q0 {
      MulAtLeast(q - q0, l);
    } else if q < q0 {
      MulAtLeast(q0 - q, l);
    }
  }

  /** Below `2 * l`, the remainder is the value or the value less `l`. */
  lemma ModBelowTwice(x: int, l: int)
    requires l > 0 && 0 <= x < 2 * l
    ensures x % l == if x < l then x else x - l
  {
    if x < l {
      ModUnique(x, l, 0, x);
    } else {
      ModUnique(x, l, 1, x - l);
    }
  }

  /** Adding whole multiples of `l` does not change the remainder. */
  lemma ModShift(x: int, q: int, l: int)
    requires l > 0
    ensures (x + q * l) % l == x % l
  {
    var d, r := x / l, x % l;
    assert x == d * l + r;
    assert x + q * l == (d + q) * l + r by {
      assert (d + q) * l == d * l + q * l;
    }
    ModUnique(x + q * l, l, d + q, r);
  }

  /** Stepping `n` forward from `s` modulo `l` returns to `s` exactly for whole cycles. */
  lemma StepReturnsIff(s: nat, n: nat, l: nat)
    requires s < l
    ensures (s + n) % l == s <==> n % l == 0
  {
    var q, r := n / l, n % l;
    assert n == r + q * l;
    assert s + n == (s + r) + q * l;
    ModShift(s + r, q, l);
    ModBelowTwice(s + r, l);
  }

  /** Stepping `n` backward from `s` modulo `l` returns to `s` exactly for whole cycles. */
  lemma BackStepReturnsIff(s: nat, n: nat, l: nat)
    requires s < l
    ensures (s - n) % l == s <==> n % l == 0
  {
    var q, r := n / l, n % l;
    assert n == r + q * l;
    assert s - n == (s - r) + (-q) * l;
    ModShift(s - r, -q, l);
    if s >= r {
      ModUnique(s - r, l, 0, s - r);
    } else {
      ModUnique(s - r, l, -1, s - r + l);
    }
  }

  // ---------------------------------------------------------------------------
  // MoveDown

  /** MoveDown by `n` and by `n + l` pick the same slot. */
  lemma MoveDownPeriodic(s: nat, n: nat, l: nat)
    requires l > 0
    ensures MoveDownTarget(s, n + l, l) == MoveDownTarget(s, n, l)
  {
    ModUnique(s + n + l, l, (s + n) / l + 1, (s + n) % l);
  }

  /** Every slot other than `s` is picked by some step count below `l`. */
  lemma MoveDownReachesEveryOther(s: nat, l: nat, k: nat)
    requires s < l && k <= l && k != s
    ensures exists n :: 0 <= n < l && MoveDownTarget(s, n, l) == k
  {
    var k' := if k > s then k - 1 else k;
    var n := if k' >= s then k' - s else k' - s + l;
    ModBelowTwice(s + n, l);
    assert MoveDownTarget(s, n, l) == k;
  }

  /** Distinct step counts below `l` pick distinct slots. */
  lemma MoveDownInjective(s: nat, l: nat, n1: nat, n2: nat)
    requires s < l && n1 < l && n2 < l
    requires MoveDownTarget(s, n1, l) == MoveDownTarget(s, n2, l)
    ensures n1 == n2
  {
    ModBelowTwice(s + n1, l);
    ModBelowTwice(s + n2, l);
    assert (s + n1) % l == (s + n2) % l;
  }

  /** MoveDown by 1 from the last slot wraps around to slot 0. */
  lemma MoveDownWrapsAtEnd(l: nat)
    requires l >= 2
    ensures MoveDownTarget(l - 1, 1, l) == 0
  {
  }

  /**
    As written, MoveDown picks slot `s + 1`, the dragged entry's own slot,
    exactly when the step count is a whole number of cycles (zero included).
   */
  lemma MoveDownPicksDraggedIff(s: nat, n: nat, l: nat)
    requires s < l
    ensures MoveDownTarget(s, n, l) == s + 1 <==> n % l == 0
  {
    StepReturnsIff(s, n, l);
  }

  /** The intended MoveDown differs from the written one only on whole cycles, where it keeps slot `s`. */
  lemma MoveDownSkippingAgrees(s: nat, n: nat, l: nat)
    requires s < l
    ensures MoveDownSkippingDragged(s, n, l) == if n % l == 0 then s else MoveDownTarget(s, n, l)
  {
    StepReturnsIff(s, n, l);
  }

  /** The intended MoveDown reaches every slot but the dragged one with some step count below `l`. */
  lemma MoveDownSkippingReachesEveryOther(s: nat, l: nat, k: nat)
    requires s < l && k <= l && k != s + 1
    ensures exists n :: 0 <= n < l && MoveDownSkippingDragged(s, n, l) == k
  {
    var k' := if k > s + 1 then k - 1 else k;
    var n := if k' >= s then k' - s else k' - s + l;
    ModBelowTwice(s + n, l);
    assert MoveDownSkippingDragged(s, n, l) == k;
  }

  /** Distinct step counts below `l` make the intended MoveDown pick distinct slots. */
  lemma MoveDownSkippingInjective(s: nat, l: nat, n1: nat, n2: nat)
    requires s < l && n1 < l && n2 < l
    requires MoveDownSkippingDragged(s, n1, l) == MoveDownSkippingDragged(s, n2, l)
    ensures n1 == n2
  {
    ModBelowTwice(s + n1, l);
    ModBelowTwice(s + n2, l);
    assert (s + n1) % l == (s + n2) % l;
  }

  // ---------------------------------------------------------------------------
  // MoveUp

  /**
    MoveUp as written lands on the page exactly when it does not wrap by an
    exact multiple of `l`; otherwise it lands one past the last slot.
   */
  lemma MoveUpInRangeIff(s: nat, n: nat, l: nat)
    requires s < l
    ensures MoveUpTarget(s, n, l) <= l <==> !(n > s && (n - s) % l == 0)
    ensures MoveUpTarget(s, n, l) > l ==> MoveUpTarget(s, n, l) == l + 1
  {
  }

  /** The smallest page on which MoveUp as written overruns: two entries, cursor on the first slot, one step. */
  lemma MoveUpOverrunsOnTwoEntries()
    ensures MoveUpTarget(0, 1, 1) == 2
  {
  }

  /** Wherever MoveUp as written stays on the page, it agrees with the intended definition. */
  lemma MoveUpAgreesWithIntended(s: nat, n: nat, l: nat)
    requires s < l && !(n > s && (n - s) % l == 0)
    ensures MoveUpTarget(s, n, l) == MoveUpIntended(s, n, l)
  {
    if n > s {
      ModOfNegative(n - s, l);
      assert -(s - n) == n - s;
    } else {
      ModUnique(s - n, l, 0, s - n);
    }
  }

  /** The Euclidean remainder of `-x` is `l` less that of `x`, unless `l` divides `x`. */
  lemma ModOfNegative(x: int, l: int)
    requires l > 0 && x % l != 0
    ensures (-x) % l == l - x % l
  {
    var q, r := x / l, x % l;
    assert x == q * l + r;
    assert -x == (-q - 1) * l + (l - r) by {
      assert (-q - 1) * l == -(q * l) - l;
    }
    ModUnique(-x, l, -q - 1, l - r);
  }

  /** The intended MoveUp by `n` is MoveDown by `l - n % l`: both walk one cycle over the other slots. */
  lemma MoveUpIntendedIsMoveDown(s: nat, n: nat, l: nat)
    requires l > 0
    ensures MoveUpIntended(s, n, l) == MoveDownTarget(s, l - n % l, l)
  {
    var m := l - n % l;
    var y := s + m;
    var q := y / l - 1 - n / l;
    assert n == (n / l) * l + n % l;
    assert y == (y / l) * l + y % l;
    assert s - n == q * l + y % l;
    ModUnique(s - n, l, q, y % l);
  }

  /** The intended MoveUp reaches every slot other than `s` with some step count below `l`. */
  lemma MoveUpIntendedReachesEveryOther(s: nat, l: nat, k: nat)
    requires s < l && k <= l && k != s
    ensures exists n :: 0 <= n < l && MoveUpIntended(s, n, l) == k
  {
    MoveDownReachesEveryOther(s, l, k);
    var m :| 0 <= m < l && MoveDownTarget(s, m, l) == k;
    var n := if m == 0 then 0 else l - m;
    MoveUpIntendedIsMoveDown(s, n, l);
    ModBelowTwice(n, l);
    if m == 0 {
      MoveDownPeriodic(s, 0, l);
    }
    assert MoveUpIntended(s, n, l) == k;
  }

  /** Distinct step counts below `l` make the intended MoveUp pick distinct slots. */
  lemma MoveUpIntendedInjective(s: nat, l: nat, n1: nat, n2: nat)
    requires s < l && n1 < l && n2 < l
    requires MoveUpIntended(s, n1, l) == MoveUpIntended(s, n2, l)
    ensures n1 == n2
  {
    MoveUpIntendedIsMoveDown(s, n1, l);
    MoveUpIntendedIsMoveDown(s, n2, l);
    ModBelowTwice(n1, l);
    ModBelowTwice(n2, l);
    var m1 := if n1 == 0 then 0 else l - n1;
    var m2 := if n2 == 0 then 0 else l - n2;
    MoveDownPeriodic(s, 0, l);
    assert MoveDownTarget(s, m1, l) == MoveUpIntended(s, n1, l);
    assert MoveDownTarget(s, m2, l) == MoveUpIntended(s, n2, l);
    MoveDownInjective(s, l, m1, m2);
  }

  /**
    MoveUp by 1 from slot 0 wraps around to the last slot `l`. (On a two-entry
    page, `l = 1`, the same wrap is the overrun of `MoveUpOverrunsOnTwoEntries`.)
   */
  lemma MoveUpWrapsAtStart(l: nat)
    requires l >= 2
    ensures MoveUpTarget(0, 1, l) == l
  {
  }

  /** The circularly wrapped MoveUp still picks the dragged entry's slot `s + 1` exactly on whole cycles. */
  lemma MoveUpIntendedPicksDraggedIff(s: nat, n: nat, l: nat)
    requires s < l
    ensures MoveUpIntended(s, n, l) == s + 1 <==> n % l == 0
  {
    BackStepReturnsIff(s, n, l);
  }

  /** The intended MoveUp differs from the circular one only on whole cycles, where it keeps slot `s`. */
  lemma MoveUpSkippingAgrees(s: nat, n: nat, l: nat)
    requires s < l
    ensures MoveUpSkippingDragged(s, n, l) == if n % l == 0 then s else MoveUpIntended(s, n, l)
  {
    BackStepReturnsIff(s, n, l);
  }

  /** The intended MoveUp reaches every slot but the dragged one with some step count below `l`. */
  lemma MoveUpSkippingReachesEveryOther(s: nat, l: nat, k: nat)
    requires s < l && k <= l && k != s + 1
    ensures exists n :: 0 <= n < l && MoveUpSkippingDragged(s, n, l) == k
  {
    MoveDownSkippingReachesEveryOther(s, l, k);
    var m :| 0 <= m < l && MoveDownSkippingDragged(s, m, l) == k;
    var n := if m == 0 then 0 else l - m;
    ModBelowTwice(n, l);
    MoveUpIntendedIsMoveDown(s, n, l);
    MoveUpSkippingAgrees(s, n, l);
    MoveDownSkippingAgrees(s, m, l);
    if m == 0 {
      MoveDownPeriodic(s, 0, l);
    }
    assert MoveUpSkippingDragged(s, n, l) == k;
  }
}
