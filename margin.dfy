/** Attendance-margin calculator.

    Given the hours a student attended (`att`) and the hours held so far
    (`tot`), the calculator either says how many further hours the student
    can miss while staying above 76%, or how many further hours the student
    must attend to reach 75%. Both answers come from a linear scan over
    `n = 0, 1, 2, ...` that stops at the first `n` crossing the threshold.

    The source compares `float32` percentages; this model compares the exact
    rationals instead, by cross-multiplying with the positive denominator:
      att / (tot + n) * 100 <= 76          is  100 * att <= 76 * (tot + n)
      (att + n) / (tot + n) * 100 >= 75    is  100 * (att + n) >= 75 * (tot + n)
 */
module AttendanceMargin {

  /** The two message templates the calculator can produce, each carrying
      the number of hours it prints. */
  datatype Message =
    | CanMissNotice(count: int)     // "You can miss %d hours to stay above 76%."
    | MustAttendNotice(count: int)  // "You need to attend %d hours to reach 75%."

  /** The calculator's result: the hour count and the message about it. */
  datatype Margin = Margin(hours: int, message: Message)

  // ---------------------------------------------------------------------
  // Threshold tests, in exact rational arithmetic (denominators positive)
  // ---------------------------------------------------------------------

  /** The current percentage `att / tot * 100` is at least 76. */
  predicate AtLeastCeiling(att: int, tot: int)
  {
    100 * att >= 76 * tot
  }

  /** After missing `n` more hours the percentage `att / (tot + n) * 100`
      is at most 76. */
  predicate DroppedAfterMissing(att: int, tot: int, n: int)
  {
    100 * att <= 76 * (tot + n)
  }

  /** After attending `n` more hours the percentage
      `(att + n) / (tot + n) * 100` is at least 75. */
  predicate ReachedAfterAttending(att: int, tot: int, n: int)
  {
    100 * (att + n) >= 75 * (tot + n)
  }

  /** `n` is the first point of the can-miss scan: the smallest `n >= 0`
      at which the percentage has dropped to 76 or below. */
  ghost predicate IsFirstDrop(att: int, tot: int, n: int)
  {
    0 <= n && DroppedAfterMissing(att, tot, n) &&
    forall m :: 0 <= m < n ==> !DroppedAfterMissing(att, tot, m)
  }

  /** `n` is the first point of the must-attend scan: the smallest `n >= 0`
      at which the percentage has reached 75 or above. */
  ghost predicate IsFirstReach(att: int, tot: int, n: int)
  {
    0 <= n && ReachedAfterAttending(att, tot, n) &&
    forall m :: 0 <= m < n ==> !ReachedAfterAttending(att, tot, m)
  }

  /** What the calculator promises about its result `r` for `att`, `tot`:
      the branch is chosen by the current percentage, the hour count is the
      first crossing point (less one in the can-miss branch) and the message
      is the branch's template printing exactly that hour count. */
  ghost predicate IsMarginOf(att: int, tot: int, r: Margin)
  {
    (AtLeastCeiling(att, tot) ==>
       r == Margin(r.hours, CanMissNotice(r.hours)) && IsFirstDrop(att, tot, r.hours + 1)) &&
    (!AtLeastCeiling(att, tot) ==>
       r == Margin(r.hours, MustAttendNotice(r.hours)) && IsFirstReach(att, tot, r.hours))
  }

  // ---------------------------------------------------------------------
  // The calculator, as the source runs it: two unbounded scans
  // ---------------------------------------------------------------------

  /** Scans for the first crossing point and reports it. Terminates for
      every `tot > 0`: in the can-miss scan `76 * (tot + n)` grows past
      `100 * att`, in the must-attend scan the gap `75 * tot - 100 * att`
      is closed by `25 * n`. */
  method CalculateMargin(att: int, tot: int) returns (r: Margin)
    requires tot > 0
    ensures IsMarginOf(att, tot, r)
  {
    if AtLeastCeiling(att, tot) {
      var n := 0;
      while true
        invariant 0 <= n
        invariant forall m :: 0 <= m < n ==> !DroppedAfterMissing(att, tot, m)
        decreases 100 * att - 76 * (tot + n)
      {
        if DroppedAfterMissing(att, tot, n) {
          return Margin(n - 1, CanMissNotice(n - 1));
        }
        n := n + 1;
      }
    } else {
      var n := 0;
      while true
        invariant 0 <= n
        invariant forall m :: 0 <= m < n ==> !ReachedAfterAttending(att, tot, m)
        decreases 75 * (tot + n) - 100 * (att + n)
      {
        if ReachedAfterAttending(att, tot, n) {
          return Margin(n, MustAttendNotice(n));
        }
        n := n + 1;
      }
    }
  }

  // ---------------------------------------------------------------------
  // Closed form: an independent definition of the same result
  // ---------------------------------------------------------------------

  /** The ceiling of `a / d` for a positive divisor. */
  function CeilDiv(a: int, d: int): (c: int)
    requires d > 0
    ensures d * (c - 1) < a <= d * c
  {
    var q := (-a) / d;
    assert -a == d * q + (-a) % d;
    -q
  }

  /** The first point of the can-miss scan, solved directly:
      `ceil((100 * att - 76 * tot) / 76)`, or 0 when already at or below. */
  function DropPoint(att: int, tot: int): int
  {
    if AtLeastCeiling(att, tot) then CeilDiv(100 * att - 76 * tot, 76) else 0
  }

  /** The first point of the must-attend scan, solved directly:
      `ceil((75 * tot - 100 * att) / 25)`, or 0 when already at or above. */
  function ReachPoint(att: int, tot: int): int
  {
    if 100 * att < 75 * tot then CeilDiv(75 * tot - 100 * att, 25) else 0
  }

  /** The margin computed without any scan. */
  function ClosedFormMargin(att: int, tot: int): Margin
  {
    if AtLeastCeiling(att, tot) then
      var k := DropPoint(att, tot) - 1;
      Margin(k, CanMissNotice(k))
    else
      var k := ReachPoint(att, tot);
      Margin(k, MustAttendNotice(k))
  }

  /** In the can-miss branch, the first drop is exactly the closed form. */
  lemma FirstDropIsDropPoint(att: int, tot: int, n: int)
    requires tot > 0 && AtLeastCeiling(att, tot)
    ensures IsFirstDrop(att, tot, n) <==> n == DropPoint(att, tot)
  {
    var p := DropPoint(att, tot);
    assert p >= 0 && DroppedAfterMissing(att, tot, p);
    forall m | 0 <= m < p
      ensures !DroppedAfterMissing(att, tot, m)
    {
      assert 76 * m <= 76 * (p - 1);
    }
  }

  /** In the must-attend branch, the first reach is exactly the closed form. */
  lemma FirstReachIsReachPoint(att: int, tot: int, n: int)
    requires tot > 0 && !AtLeastCeiling(att, tot)
    ensures IsFirstReach(att, tot, n) <==> n == ReachPoint(att, tot)
  {
    var p := ReachPoint(att, tot);
    assert p >= 0 && ReachedAfterAttending(att, tot, p);
    forall m | 0 <= m < p
      ensures !ReachedAfterAttending(att, tot, m)
    {
      assert 25 * m <= 25 * (p - 1);
    }
  }

  /** The scan's promise pins its result down to exactly one value, the
      closed form: the closed form satisfies it, and nothing else does. */
  lemma MarginIsClosedForm(att: int, tot: int, r: Margin)
    requires tot > 0
    ensures IsMarginOf(att, tot, r) <==> r == ClosedFormMargin(att, tot)
  {
    if AtLeastCeiling(att, tot) {
      FirstDropIsDropPoint(att, tot, r.hours + 1);
    } else {
      FirstReachIsReachPoint(att, tot, r.hours);
    }
  }

  // ---------------------------------------------------------------------
  // Properties of the calculator's result
  // ---------------------------------------------------------------------

  /** Can-miss branch: the reported count is at least -1; missing any
      number of hours up to it keeps the percentage strictly above 76, and
      missing one more brings it to 76 or below. */
  lemma CanMissIsLargestSafeAbsence(att: int, tot: int, r: Margin)
    requires tot > 0 && AtLeastCeiling(att, tot) && IsMarginOf(att, tot, r)
    ensures r.message.CanMissNotice? && r.message.count == r.hours
    ensures r.hours >= -1
    ensures forall m :: 0 <= m <= r.hours ==> !DroppedAfterMissing(att, tot, m)
    ensures 100 * att <= 76 * (tot + r.hours + 1)
  {
  }

  /** Must-attend branch: the reported count is at least 0; attending it
      brings the percentage to 75 or above, and attending fewer does not. */
  lemma MustAttendIsLeastSufficientAttendance(att: int, tot: int, r: Margin)
    requires tot > 0 && !AtLeastCeiling(att, tot) && IsMarginOf(att, tot, r)
    ensures r.message.MustAttendNotice? && r.message.count == r.hours
    ensures r.hours >= 0
    ensures 100 * (att + r.hours) >= 75 * (tot + r.hours)
    ensures forall m :: 0 <= m < r.hours ==> !ReachedAfterAttending(att, tot, m)
  {
  }

  /** In the can-miss branch the count is non-negative exactly when the
      current percentage is strictly above 76. */
  lemma CanMissNonNegativeIffAbove(att: int, tot: int, r: Margin)
    requires tot > 0 && AtLeastCeiling(att, tot) && IsMarginOf(att, tot, r)
    ensures r.hours >= 0 <==> 100 * att > 76 * tot
  {
    if r.hours >= 0 {
      assert 0 < r.hours + 1;
      assert !DroppedAfterMissing(att, tot, 0);
    }
  }

  /** Boundary: at exactly 76% the scan stops at its first step and the
      count is -1; the calculator does not clamp it. */
  lemma ExactlyCeilingGivesMinusOne(att: int, tot: int, r: Margin)
    requires tot > 0 && 100 * att == 76 * tot && IsMarginOf(att, tot, r)
    ensures r == Margin(-1, CanMissNotice(-1))
  {
    assert DroppedAfterMissing(att, tot, 0);
  }

  /** Between 75% (inclusive) and 76% (exclusive) there is no separate
      branch: the must-attend scan succeeds at once and reports 0. */
  lemma BandBelowCeilingGivesZero(att: int, tot: int, r: Margin)
    requires tot > 0 && 75 * tot <= 100 * att < 76 * tot && IsMarginOf(att, tot, r)
    ensures r == Margin(0, MustAttendNotice(0))
  {
    assert ReachedAfterAttending(att, tot, 0);
  }

  /** 80 of 100 hours: 5 more can be missed (80/105 is above 76%,
      80/106 is not). */
  lemma EightyOfHundredCanMissFive(r: Margin)
    requires IsMarginOf(80, 100, r)
    ensures r == Margin(5, CanMissNotice(5))
  {
    MarginIsClosedForm(80, 100, r);
  }

  /** 60 of 100 hours: 60 more must be attended (120/160 is exactly 75%). */
  lemma SixtyOfHundredMustAttendSixty(r: Margin)
    requires IsMarginOf(60, 100, r)
    ensures r == Margin(60, MustAttendNotice(60))
  {
    MarginIsClosedForm(60, 100, r);
  }

  /** 76 of 100 hours: the boundary case reports -1. */
  lemma SeventySixOfHundredCanMissMinusOne(r: Margin)
    requires IsMarginOf(76, 100, r)
    ensures r == Margin(-1, CanMissNotice(-1))
  {
    ExactlyCeilingGivesMinusOne(76, 100, r);
  }
}
