/**
 * Runs of consecutive calendar days.  A day is a day number, so two dates
 * are consecutive exactly when their numbers differ by one.
 */
module Streaks {
  predicate Increasing(d: seq<int>) {
    forall i, j :: 0 <= i < j < |d| ==> d[i] < d[j]
  }

  /** `d` lists exactly the days of `s`. */
  ghost predicate Lists(d: seq<int>, s: set<int>) {
    forall x :: x in d <==> x in s
  }

  /** The `len` days from `a` on are all in `s`. */
  ghost predicate RunIn(s: set<int>, a: int, len: int) {
    forall x :: a <= x < a + len ==> x in s
  }

  /** `len` is the length of the longest run in `s` and `start..end` is the
      first run of that length. */
  ghost predicate LongestRunOf(s: set<int>, len: nat, start: int, end: int) {
    && len >= 1 && end == start + len - 1
    && RunIn(s, start, len)
    && (forall a, l :: RunIn(s, a, l) ==> l <= len)
    && (forall a :: RunIn(s, a, len) ==> start <= a)
  }

  /** A set without members is empty. */
  lemma NoMemberEmpty(s: set<int>)
    ensures (forall y :: y !in s) ==> s == {}
  {
    if forall y :: y !in s {
      assert forall y :: y in s <==> y in {};
    }
  }

  lemma {:induction false} MinExists(s: set<int>)
    requires s != {}
    ensures exists m :: m in s && forall x :: x in s ==> m <= x
    decreases |s|
  {
    NoMemberEmpty(s);
    var y :| y in s;
    var r := s - {y};
    if r == {} {
      forall x | x in s
        ensures y <= x
      {
        assert x !in r;
      }
    } else {
      MinExists(r);
      var m :| m in r && forall x :: x in r ==> m <= x;
      var lo := if y < m then y else m;
      forall x | x in s
        ensures lo <= x
      {
        if x != y {
          assert x in r;
        }
      }
      assert lo in s;
    }
  }

  /** `Array.from(days).sort((a, b) => a - b)`: the days of `s`, earliest
      first, each once. */
  method SortDays(s: set<int>) returns (d: seq<int>)
    ensures Increasing(d) && Lists(d, s) && |d| == |s|
  {
    d := [];
    var rest := s;
    while rest != {}
      invariant rest <= s
      invariant Increasing(d)
      invariant forall x :: x in s <==> x in d || x in rest
      invariant forall i, x :: 0 <= i < |d| && x in rest ==> d[i] < x
      invariant |d| + |rest| == |s|
      decreases |rest|
    {
      MinExists(rest);
      var m :| m in rest && forall x :: x in rest ==> m <= x;
      d := d + [m];
      rest := rest - {m};
    }
  }

  // ---- The scan over sorted days --------------------------------------------

  /** Every run that ends by `bound` is at most `max` long. */
  ghost predicate RunsBounded(s: set<int>, bound: int, max: nat) {
    forall a, l :: RunIn(s, a, l) && l >= 1 && a + l - 1 <= bound ==> l <= max
  }

  /** No run of length `max` that ends by `bound` starts before `start`. */
  ghost predicate NoEarlierRun(s: set<int>, bound: int, max: nat, start: int) {
    forall a :: RunIn(s, a, max) && a + max - 1 <= bound ==> start <= a
  }

  /** Between two neighbouring listed days there is no day of `s`. */
  lemma Gap(d: seq<int>, s: set<int>, i: nat, x: int)
    requires Increasing(d) && Lists(d, s) && 0 < i < |d|
    ensures x in s && d[i - 1] < x ==> d[i] <= x
  {
    if x in s && d[i - 1] < x {
      var k :| 0 <= k < |d| && d[k] == x;
      assert k >= i;
      assert k == i || d[i] < d[k];
    }
  }

  /** Every day of `s` lies between the first and the last listed day. */
  lemma Ends(d: seq<int>, s: set<int>, x: int)
    requires Increasing(d) && Lists(d, s) && |d| >= 1
    ensures x in s ==> d[0] <= x <= d[|d| - 1]
  {
    if x in s {
      var k :| 0 <= k < |d| && d[k] == x;
      assert k == 0 || d[0] < d[k];
      assert k == |d| - 1 || d[k] < d[|d| - 1];
    }
  }

  /** The runs that end at `d[i]` are no longer than the current run, when
      the day before the current run is not in `s`. */
  lemma EndingRuns(d: seq<int>, s: set<int>, i: nat, cur: nat, curStart: int)
    requires Increasing(d) && Lists(d, s) && 0 < i < |d|
    requires cur >= 1 && curStart == d[i] - cur + 1 && curStart - 1 !in s
    ensures forall a, l :: RunIn(s, a, l) && l >= 1 && d[i - 1] < a + l - 1 <= d[i] ==>
                           a + l - 1 == d[i] && l <= cur
  {
    forall a, l | RunIn(s, a, l) && l >= 1 && d[i - 1] < a + l - 1 <= d[i]
      ensures a + l - 1 == d[i] && l <= cur
    {
      Gap(d, s, i, a + l - 1);
    }
  }

  /** The scan's state before the first step. */
  lemma FirstRun(d: seq<int>, s: set<int>)
    requires Increasing(d) && Lists(d, s) && |d| >= 1
    ensures RunIn(s, d[0], 1) && d[0] - 1 !in s
    ensures RunsBounded(s, d[0], 1) && NoEarlierRun(s, d[0], 1, d[0])
  {
    Ends(d, s, d[0] - 1);
    forall a, l | RunIn(s, a, l) && l >= 1 && a + l - 1 <= d[0]
      ensures l <= 1 && a == d[0] - l + 1
    {
      Ends(d, s, a + l - 1);
      if l >= 2 {
        Ends(d, s, a + l - 2);
      }
    }
  }

  /** One step of the scan keeps the bounds on the longest run so far. */
  lemma MaxStep(d: seq<int>, s: set<int>, i: nat, cur: nat, curStart: int,
                max: nat, maxStart: int, max': nat, maxStart': int)
    requires Increasing(d) && Lists(d, s) && 0 < i < |d|
    requires cur >= 1 && curStart == d[i] - cur + 1 && curStart - 1 !in s
    requires max >= 1 && maxStart + max - 1 <= d[i - 1]
    requires RunsBounded(s, d[i - 1], max) && NoEarlierRun(s, d[i - 1], max, maxStart)
    requires if cur > max then max' == cur && maxStart' == curStart else max' == max && maxStart' == maxStart
    ensures RunsBounded(s, d[i], max') && NoEarlierRun(s, d[i], max', maxStart')
  {
    EndingRuns(d, s, i, cur, curStart);
    forall a, l | RunIn(s, a, l) && l >= 1 && a + l - 1 <= d[i]
      ensures l <= max'
    {
    }
    forall a | RunIn(s, a, max') && a + max' - 1 <= d[i]
      ensures maxStart' <= a
    {
    }
  }

  /** `maxStreak`, `maxStart` and `maxEnd` after the scan over `d`. */
  method LongestRun(d: seq<int>, ghost s: set<int>) returns (maxStreak: nat, maxStart: int, maxEnd: int)
    requires |d| >= 1 && Increasing(d) && Lists(d, s)
    ensures LongestRunOf(s, maxStreak, maxStart, maxEnd)
  {
    var currentStreak: nat := 1;
    var currentStart := d[0];
    maxStreak, maxStart, maxEnd := 1, d[0], d[0];
    FirstRun(d, s);
    var i := 1;
    while i < |d|
      invariant 1 <= i <= |d|
      invariant 1 <= currentStreak <= maxStreak
      invariant currentStart == d[i - 1] - currentStreak + 1
      invariant RunIn(s, currentStart, currentStreak) && currentStart - 1 !in s
      invariant maxEnd == maxStart + maxStreak - 1 <= d[i - 1]
      invariant RunIn(s, maxStart, maxStreak)
      invariant RunsBounded(s, d[i - 1], maxStreak) && NoEarlierRun(s, d[i - 1], maxStreak, maxStart)
    {
      var prevDate, currDate := d[i - 1], d[i];
      assert currDate in s;
      if currDate - prevDate == 1 {
        assert currentStart + currentStreak == currDate;
        currentStreak := currentStreak + 1;
      } else {
        currentStreak := 1;
        currentStart := currDate;
        Gap(d, s, i, currDate - 1);
      }
      ghost var max0, start0 := maxStreak, maxStart;
      if currentStreak > maxStreak {
        maxStreak, maxStart, maxEnd := currentStreak, currentStart, currDate;
      }
      MaxStep(d, s, i, currentStreak, currentStart, max0, start0, maxStreak, maxStart);
      i := i + 1;
    }
    forall a, l | RunIn(s, a, l)
      ensures l <= maxStreak
    {
      if l >= 1 {
        Ends(d, s, a + l - 1);
      }
    }
    forall a | RunIn(s, a, maxStreak)
      ensures maxStart <= a
    {
      Ends(d, s, a + maxStreak - 1);
    }
  }
}
