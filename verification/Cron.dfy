/** Whether a cron expression fires inside a half-open window. */
module Cron {
  import opened Options

  // Instants are integer nanoseconds since the Unix epoch; time.Time's zero value is the start of year 1.
  const ZERO_TIME: int := -62_135_596_800_000_000_000

  /** What is known of schedule.Next: the least activation strictly after t, or the zero time when none comes
      up to the end of its search, `reach(t)`. */
  ghost predicate IsNext(next: int -> int, fires: int -> bool, reach: int -> int) {
    forall t ::
      (next(t) == ZERO_TIME && forall a :: t < a <= reach(t) ==> !fires(a)) ||
      (t < next(t) && fires(next(t)) && forall a :: t < a < next(t) ==> !fires(a))
  }

  /** None for an expression that does not parse. */
  function DueInWindow(next: Option<int -> int>, start: int, end: int): Option<bool> {
    match next
    case None => None
    case Some(f) => Some(start <= f(start - 1) < end)
  }

  /** An expression is answered for exactly when it parses. */
  lemma DueUnlessInvalid(next: Option<int -> int>, start: int, end: int)
    ensures DueInWindow(next, start, end).None? <==> next.None?
  {
  }

  ghost predicate FiresIn(fires: int -> bool, start: int, end: int) {
    exists a :: start <= a < end && fires(a)
  }

  /** A window is due exactly when an activation lies in it. */
  lemma DueIffFires(next: int -> int, fires: int -> bool, reach: int -> int, start: int, end: int)
    requires IsNext(next, fires, reach) && ZERO_TIME < start && end <= reach(start - 1) + 1
    ensures DueInWindow(Some(next), start, end) == Some(FiresIn(fires, start, end))
  {
  }

  ghost predicate Abutting(bounds: seq<int>) {
    |bounds| >= 1 && forall i :: 0 <= i < |bounds| - 1 ==> bounds[i] <= bounds[i + 1]
  }

  ghost predicate InWindow(bounds: seq<int>, i: int, a: int) {
    0 <= i < |bounds| - 1 && bounds[i] <= a < bounds[i + 1]
  }

  lemma {:induction false} BoundsOrdered(bounds: seq<int>, i: nat, j: nat)
    requires Abutting(bounds) && i <= j < |bounds|
    ensures bounds[i] <= bounds[j]
    decreases j - i
  {
    if i < j {
      BoundsOrdered(bounds, i, j - 1);
    }
  }

  lemma {:induction false} WindowOf(bounds: seq<int>, a: int, n: nat) returns (i: nat)
    requires n < |bounds| && bounds[0] <= a < bounds[n]
    ensures i < n && InWindow(bounds, i, a)
  {
    if bounds[n - 1] <= a {
      i := n - 1;
    } else {
      i := WindowOf(bounds, a, n - 1);
    }
  }

  /** Over abutting windows, every activation is due in one window, and in no other. */
  lemma DueExactlyOnce(next: int -> int, fires: int -> bool, reach: int -> int, bounds: seq<int>, a: int)
    returns (i: nat)
    requires IsNext(next, fires, reach) && Abutting(bounds) && ZERO_TIME < bounds[0]
    requires forall j :: 0 <= j < |bounds| - 1 ==> bounds[j + 1] <= reach(bounds[j] - 1) + 1
    requires bounds[0] <= a < bounds[|bounds| - 1] && fires(a)
    ensures InWindow(bounds, i, a) && DueInWindow(Some(next), bounds[i], bounds[i + 1]) == Some(true)
    ensures forall j :: InWindow(bounds, j, a) ==> j == i
  {
    i := WindowOf(bounds, a, |bounds| - 1);
    BoundsOrdered(bounds, 0, i);
    DueIffFires(next, fires, reach, bounds[i], bounds[i + 1]);
    forall j | InWindow(bounds, j, a) ensures j == i {
      if j < i {
        BoundsOrdered(bounds, j + 1, i);
      } else if i < j {
        BoundsOrdered(bounds, i + 1, j);
      }
    }
  }

  /** Splitting a window changes nothing: [a, c) is due exactly when [a, b) or [b, c) is. */
  lemma DueSplits(next: int -> int, fires: int -> bool, reach: int -> int, a: int, b: int, c: int)
    requires IsNext(next, fires, reach) && ZERO_TIME < a <= b <= c
    requires c <= reach(a - 1) + 1 && c <= reach(b - 1) + 1
    ensures DueInWindow(Some(next), a, c)
         == Some(DueInWindow(Some(next), a, b).value || DueInWindow(Some(next), b, c).value)
  {
  }
}
