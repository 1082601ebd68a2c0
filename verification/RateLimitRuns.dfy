/** The rate limiter over whole serial runs: how many requests an interval can admit, and that the bounds are exact. */
module RateLimitRuns {
  import opened Options
  import opened Decimal
  import opened RateLimitCodec
  import opened RateLimit

  // ---------- properties of whole runs of the ideal counter ----------

  function Decisions(w: Window, maxRequests: int, window: int, vs: seq<Visit>): (ds: seq<Decision>)
    ensures |ds| == |vs|
    decreases vs
  {
    if vs == [] then []
    else
      var o := Step(w, maxRequests, window, vs[0]);
      [o.decision] + Decisions(o.window, maxRequests, window, vs[1..])
  }

  /** Number of requests admitted whose clock reading lies in the closed interval [from, to]. */
  function Admitted(vs: seq<Visit>, ds: seq<Decision>, from: int, to: int): nat
    requires |vs| == |ds|
  {
    if vs == [] then 0
    else
      (if from <= vs[0].now <= to && ds[0].Admit? then 1 else 0) + Admitted(vs[1..], ds[1..], from, to)
  }

  ghost predicate Monotone(vs: seq<Visit>) {
    forall i, j :: 0 <= i < j < |vs| ==> vs[i].now <= vs[j].now
  }

  /** Windows that Step can produce, or none. */
  ghost predicate Counted(w: Window) {
    w.Open? ==> w.count >= 1
  }

  /** Requests left in an open window. */
  function Left(w: Window, maxRequests: int): nat {
    if w.Idle? then Max(1, maxRequests) else Max(0, maxRequests - w.count)
  }

  function WindowAfter(w: Window, maxRequests: int, window: int, vs: seq<Visit>): Window
    decreases vs
  {
    if vs == [] then w else WindowAfter(Step(w, maxRequests, window, vs[0]).window, maxRequests, window, vs[1..])
  }

  /** Inside its window a counter admits exactly as many requests as are left, counts each of them, and never
      moves its expiry. */
  lemma {:induction false} WindowAdmitsExactly(w: Window, maxRequests: int, window: int, vs: seq<Visit>, from: int)
    requires w.Open? && Counted(w)
    requires forall i :: 0 <= i < |vs| ==> from <= vs[i].now < w.expiry
    ensures Admitted(vs, Decisions(w, maxRequests, window, vs), from, w.expiry)
         == if |vs| < Left(w, maxRequests) then |vs| else Left(w, maxRequests)
    ensures WindowAfter(w, maxRequests, window, vs)
         == Open(w.count + Admitted(vs, Decisions(w, maxRequests, window, vs), from, w.expiry), w.expiry)
    decreases vs
  {
    if vs != [] {
      var o := Step(w, maxRequests, window, vs[0]);
      assert o.window.expiry == w.expiry;
      WindowAdmitsExactly(o.window, maxRequests, window, vs[1..], from);
    }
  }

  lemma {:induction false} UpToExpiry(
    w: Window, maxRequests: int, window: int, vs: seq<Visit>, from: int, to: int)
    requires Counted(w) && w.Open? && Monotone(vs) && to < w.expiry
    ensures Admitted(vs, Decisions(w, maxRequests, window, vs), from, to) <= Left(w, maxRequests)
    decreases vs
  {
    if vs != [] {
      if vs[0].now >= w.expiry {
        NoneOutside(vs, Decisions(w, maxRequests, window, vs), from, to);
      } else {
        UpToExpiry(Step(w, maxRequests, window, vs[0]).window, maxRequests, window, vs[1..], from, to);
      }
    }
  }

  lemma {:induction false} NoneOutside(vs: seq<Visit>, ds: seq<Decision>, from: int, to: int)
    requires |vs| == |ds| && forall i :: 0 <= i < |vs| ==> !(from <= vs[i].now <= to)
    ensures Admitted(vs, ds, from, to) == 0
  {
    if vs != [] {
      NoneOutside(vs[1..], ds[1..], from, to);
    }
  }

  /** From an open window, at most one more window can open before `expiry + window - 1ms`. */
  lemma {:induction false} UpToNextExpiry(
    w: Window, maxRequests: int, window: int, vs: seq<Visit>, from: int, to: int)
    requires Counted(w) && w.Open? && Monotone(vs) && to <= w.expiry + window - MILLISECOND
    ensures Admitted(vs, Decisions(w, maxRequests, window, vs), from, to)
         <= Left(w, maxRequests) + Max(1, maxRequests)
    decreases vs
  {
    if vs != [] {
      var o := Step(w, maxRequests, window, vs[0]);
      if vs[0].now >= w.expiry {
        UpToExpiry(o.window, maxRequests, window, vs[1..], from, to);
      } else {
        UpToNextExpiry(o.window, maxRequests, window, vs[1..], from, to);
      }
    }
  }

  /** The ideal counter admits less than twice max(1, maxRequests) in an interval of `window - 1ms`. */
  lemma {:induction false} SlidingBound(
    w: Window, maxRequests: int, window: int, vs: seq<Visit>, from: int, to: int)
    requires Counted(w) && Monotone(vs) && to - from <= window - MILLISECOND
    ensures Admitted(vs, Decisions(w, maxRequests, window, vs), from, to) <= 2 * Max(1, maxRequests) - 1
    decreases vs
  {
    if vs != [] {
      var o := Step(w, maxRequests, window, vs[0]);
      if vs[0].now < from {
        SlidingBound(o.window, maxRequests, window, vs[1..], from, to);
      } else if w.Idle? || vs[0].now >= w.expiry {
        UpToExpiry(o.window, maxRequests, window, vs[1..], from, to);
      } else {
        UpToNextExpiry(w, maxRequests, window, vs, from, to);
      }
    }
  }

  lemma {:induction false} DecisionsAppend(
    w: Window, maxRequests: int, window: int, a: seq<Visit>, b: seq<Visit>)
    ensures var next := WindowAfter(w, maxRequests, window, a);
            && Decisions(w, maxRequests, window, a + b)
               == Decisions(w, maxRequests, window, a) + Decisions(next, maxRequests, window, b)
            && WindowAfter(w, maxRequests, window, a + b) == WindowAfter(next, maxRequests, window, b)
    decreases a
  {
    hide Step;
    if a == [] {
      assert a + b == b;
    } else {
      assert (a + b)[1..] == a[1..] + b;
      DecisionsAppend(Step(w, maxRequests, window, a[0]).window, maxRequests, window, a[1..], b);
    }
  }

  lemma {:induction false} AdmittedAppend(
    a: seq<Visit>, b: seq<Visit>, ds: seq<Decision>, es: seq<Decision>, from: int, to: int)
    requires |a| == |ds| && |b| == |es|
    ensures Admitted(a + b, ds + es, from, to) == Admitted(a, ds, from, to) + Admitted(b, es, from, to)
    decreases a
  {
    if a == [] {
      assert a + b == b && ds + es == es;
    } else {
      assert (a + b)[1..] == a[1..] + b && (ds + es)[1..] == ds[1..] + es;
      AdmittedAppend(a[1..], b, ds[1..], es, from, to);
    }
  }

  // ---------- runs of the stored counter ----------

  function SlotDecisions(slot: Slot, maxRequests: int, window: int, vs: seq<Visit>): (ds: seq<Decision>)
    ensures |ds| == |vs|
    decreases vs
  {
    if vs == [] then []
    else
      var o := SlotStep(slot, maxRequests, window, vs[0]);
      [o.decision] + SlotDecisions(o.slot, maxRequests, window, vs[1..])
  }

  function SlotAfter(slot: Slot, maxRequests: int, window: int, vs: seq<Visit>): Slot
    decreases vs
  {
    if vs == [] then slot else SlotAfter(SlotStep(slot, maxRequests, window, vs[0]).slot, maxRequests, window, vs[1..])
  }

  /** Requests one after the other under a non-decreasing clock: each ends before the next begins. */
  ghost predicate Serial(vs: seq<Visit>) {
    && (forall i :: 0 <= i < |vs| ==> Ordered(vs[i]))
    && forall i, j :: 0 <= i < j < |vs| ==> vs[i].stored <= vs[j].now
  }

  /** No request of the run straddles the deadline of the entry it finds. */
  predicate Unstraddled(slot: Slot, maxRequests: int, window: int, vs: seq<Visit>)
    decreases vs
  {
    vs == [] ||
    (!Straddles(slot, vs[0]) &&
     Unstraddled(SlotStep(slot, maxRequests, window, vs[0]).slot, maxRequests, window, vs[1..]))
  }

  lemma {:induction false} SlotAppend(slot: Slot, maxRequests: int, window: int, a: seq<Visit>, b: seq<Visit>)
    ensures var next := SlotAfter(slot, maxRequests, window, a);
            && SlotDecisions(slot, maxRequests, window, a + b)
               == SlotDecisions(slot, maxRequests, window, a) + SlotDecisions(next, maxRequests, window, b)
            && SlotAfter(slot, maxRequests, window, a + b) == SlotAfter(next, maxRequests, window, b)
    decreases a
  {
    hide SlotStep;
    if a == [] {
      assert a + b == b;
    } else {
      assert (a + b)[1..] == a[1..] + b;
      SlotAppend(SlotStep(slot, maxRequests, window, a[0]).slot, maxRequests, window, a[1..], b);
    }
  }

  lemma {:induction false} RunKeeps(slot: Slot, maxRequests: int, window: int, vs: seq<Visit>)
    requires WellKept(slot) && Serial(vs) && window > 0
    ensures WellKept(SlotAfter(slot, maxRequests, window, vs))
    decreases vs
  {
    hide SlotStep, WellKept;
    if vs != [] {
      StepKeeps(slot, maxRequests, window, vs[0]);
      RunKeeps(SlotStep(slot, maxRequests, window, vs[0]).slot, maxRequests, window, vs[1..]);
    }
  }

  /** A run in which no request straddles a deadline is a run of the ideal counter, whatever the store evicts. */
  lemma {:induction false} RunAgrees(slot: Slot, maxRequests: int, window: int, vs: seq<Visit>)
    requires WellKept(slot) && Serial(vs) && window > 0 && Unstraddled(slot, maxRequests, window, vs)
    ensures SlotDecisions(slot, maxRequests, window, vs) == Decisions(slot.window, maxRequests, window, vs)
    ensures SlotAfter(slot, maxRequests, window, vs).window == WindowAfter(slot.window, maxRequests, window, vs)
    decreases vs
  {
    hide SlotStep, WellKept, Step, Straddles;
    if vs != [] {
      StepAgreesIff(slot, maxRequests, window, vs[0]);
      StepKeeps(slot, maxRequests, window, vs[0]);
      RunAgrees(SlotStep(slot, maxRequests, window, vs[0]).slot, maxRequests, window, vs[1..]);
    }
  }

  // ---------- one window ----------

  /** Inside a window only the last request can straddle its deadline. */
  lemma {:induction false} OnlyLastStraddles(slot: Slot, maxRequests: int, window: int, vs: seq<Visit>)
    requires slot.window.Open? && WellKept(slot) && Serial(vs) && window > 0 && vs != []
    requires forall i :: 0 <= i < |vs| ==> vs[i].now < slot.window.expiry
    ensures Unstraddled(slot, maxRequests, window, vs[..|vs| - 1])
    decreases vs
  {
    var front := vs[..|vs| - 1];
    if front != [] {
      assert vs[0].stored <= vs[1].now;
      var next := SlotStep(slot, maxRequests, window, vs[0]).slot;
      StepKeeps(slot, maxRequests, window, vs[0]);
      OnlyLastStraddles(next, maxRequests, window, vs[1..]);
      assert vs[1..][..|vs[1..]| - 1] == front[1..];
    }
  }

  lemma AdmittedLast(slot: Slot, maxRequests: int, window: int, vs: seq<Visit>, from: int, to: int)
    requires vs != [] && from <= vs[|vs| - 1].now <= to
    ensures var front, last := vs[..|vs| - 1], vs[|vs| - 1];
            Admitted(vs, SlotDecisions(slot, maxRequests, window, vs), from, to)
            == Admitted(front, SlotDecisions(slot, maxRequests, window, front), from, to)
               + if SlotStep(SlotAfter(slot, maxRequests, window, front), maxRequests, window, last).decision.Admit?
                 then 1 else 0
  {
    hide SlotStep;
    var front, last := vs[..|vs| - 1], vs[|vs| - 1];
    var here := SlotAfter(slot, maxRequests, window, front);
    assert vs == front + [last];
    SlotAppend(slot, maxRequests, window, front, [last]);
    AdmittedAppend(front, [last], SlotDecisions(slot, maxRequests, window, front),
                   SlotDecisions(here, maxRequests, window, [last]), from, to);
  }

  /** Inside a stored window exactly the requests left are admitted, and one more iff the last one straddles the
      deadline or is itself left. */
  lemma StoredWindowAdmits(slot: Slot, maxRequests: int, window: int, vs: seq<Visit>, from: int)
    requires slot.window.Open? && WellKept(slot) && Serial(vs) && window > 0 && vs != []
    requires forall i :: 0 <= i < |vs| ==> from <= vs[i].now < slot.window.expiry
    ensures var n := |vs| - 1;
            var here, left := SlotAfter(slot, maxRequests, window, vs[..n]), Left(slot.window, maxRequests);
            Admitted(vs, SlotDecisions(slot, maxRequests, window, vs), from, slot.window.expiry)
            == (if n < left then n else left) + if Straddles(here, vs[n]) || n < left then 1 else 0
  {
    hide SlotDecisions, SlotAfter, Decisions, WindowAfter, Admitted, Unstraddled;
    var front, last := vs[..|vs| - 1], vs[|vs| - 1];
    OnlyLastStraddles(slot, maxRequests, window, vs);
    RunAgrees(slot, maxRequests, window, front);
    WindowAdmitsExactly(slot.window, maxRequests, window, front, from);
    AdmittedLast(slot, maxRequests, window, vs, from, slot.window.expiry);
  }

  /** From no window at all, the requests of one whole window: the first max(1, maxRequests) pass, and at most one
      more, iff the last one straddles the deadline. */
  lemma OneWindow(slot: Slot, maxRequests: int, window: int, vs: seq<Visit>)
    requires slot.window.Idle? && Serial(vs) && window > 0 && vs != []
    requires forall i :: 0 <= i < |vs| ==> vs[i].now < TruncateMillis(vs[0].now + window)
    ensures var n, most := |vs| - 1, Max(1, maxRequests);
            var here := SlotAfter(slot, maxRequests, window, vs[..n]);
            Admitted(vs, SlotDecisions(slot, maxRequests, window, vs), vs[0].now, TruncateMillis(vs[0].now + window))
            == (if n < most then n else most) + if Straddles(here, vs[n]) || n < most then 1 else 0
  {
    var first := SlotStep(slot, maxRequests, window, vs[0]).slot;
    assert vs[0].now <= vs[0].stored;
    StepKeeps(slot, maxRequests, window, vs[0]);
    var rest := vs[1..];
    if rest != [] {
      StoredWindowAdmits(first, maxRequests, window, rest, vs[0].now);
      assert vs[..|vs| - 1][1..] == rest[..|rest| - 1];
    }
  }

  // ---------- intervals ----------

  /** Up to the expiry of a stored window, one request more than it has left can pass. */
  lemma {:induction false} StoredUpToExpiry(
    slot: Slot, maxRequests: int, window: int, vs: seq<Visit>, from: int, to: int)
    requires slot.window.Open? && WellKept(slot) && Serial(vs) && window > 0 && to < slot.window.expiry
    ensures Admitted(vs, SlotDecisions(slot, maxRequests, window, vs), from, to)
         <= Left(slot.window, maxRequests) + 1
    decreases vs
  {
    if vs != [] {
      var next := SlotStep(slot, maxRequests, window, vs[0]).slot;
      var later := SlotDecisions(next, maxRequests, window, vs[1..]);
      if vs[0].now >= slot.window.expiry {
        NoneOutside(vs, SlotDecisions(slot, maxRequests, window, vs), from, to);
      } else if Straddles(slot, vs[0]) {
        NoneOutside(vs[1..], later, from, to);
      } else {
        StepKeeps(slot, maxRequests, window, vs[0]);
        StoredUpToExpiry(next, maxRequests, window, vs[1..], from, to);
      }
    }
  }

  /** From a stored window, in an interval of `window - 1ms` that has begun: what is left, and one window and one
      request more. */
  lemma {:induction false} StoredUpToNextExpiry(
    slot: Slot, maxRequests: int, window: int, vs: seq<Visit>, from: int, to: int)
    requires slot.window.Open? && WellKept(slot) && Serial(vs) && window > 0 && to - from <= window - MILLISECOND
    requires forall i :: 0 <= i < |vs| ==> from <= vs[i].now
    ensures Admitted(vs, SlotDecisions(slot, maxRequests, window, vs), from, to)
         <= Left(slot.window, maxRequests) + Max(1, maxRequests) + 1
    decreases vs
  {
    if vs != [] {
      var next := SlotStep(slot, maxRequests, window, vs[0]).slot;
      StepKeeps(slot, maxRequests, window, vs[0]);
      if vs[0].now >= slot.window.expiry || Straddles(slot, vs[0]) {
        StoredUpToExpiry(next, maxRequests, window, vs[1..], from, to);
      } else {
        StoredUpToNextExpiry(next, maxRequests, window, vs[1..], from, to);
      }
    }
  }

  /** Safety over all serial runs: an interval of `window - 1ms` admits at most twice max(1, maxRequests). */
  lemma {:induction false} StoredBound(
    slot: Slot, maxRequests: int, window: int, vs: seq<Visit>, from: int, to: int)
    requires WellKept(slot) && Serial(vs) && window > 0 && to - from <= window - MILLISECOND
    ensures Admitted(vs, SlotDecisions(slot, maxRequests, window, vs), from, to) <= 2 * Max(1, maxRequests)
    decreases vs
  {
    if vs != [] {
      var next := SlotStep(slot, maxRequests, window, vs[0]).slot;
      StepKeeps(slot, maxRequests, window, vs[0]);
      if vs[0].now < from {
        StoredBound(next, maxRequests, window, vs[1..], from, to);
      } else if slot.window.Idle? {
        StoredUpToExpiry(next, maxRequests, window, vs[1..], from, to);
      } else {
        StoredUpToNextExpiry(slot, maxRequests, window, vs, from, to);
      }
    }
  }

  /** ... and one fewer as long as no request straddles a deadline. */
  lemma UnstraddledBound(slot: Slot, maxRequests: int, window: int, vs: seq<Visit>, from: int, to: int)
    requires WellKept(slot) && Serial(vs) && window > 0 && to - from <= window - MILLISECOND
    requires Unstraddled(slot, maxRequests, window, vs)
    ensures Admitted(vs, SlotDecisions(slot, maxRequests, window, vs), from, to) <= 2 * Max(1, maxRequests) - 1
  {
    hide SlotDecisions, Decisions, Admitted, Unstraddled;
    RunAgrees(slot, maxRequests, window, vs);
    SlidingBound(slot.window, maxRequests, window, vs, from, to);
  }

  // ---------- both bounds are attained ----------

  /** n requests at one instant. */
  function Burst(at: int, n: nat): (vs: seq<Visit>)
    ensures |vs| == n && forall i :: 0 <= i < n ==> vs[i] == Visit(at, at, at, at, false)
  {
    seq(n, i => Visit(at, at, at, at, false))
  }

  /** A burst into an open window: as many pass as are left in it. */
  lemma {:induction false} BurstAdmits(w: Window, maxRequests: int, window: int, at: int, n: nat, from: int, to: int)
    requires w.Open? && Counted(w) && from <= at <= to && at < w.expiry
    ensures Admitted(Burst(at, n), Decisions(w, maxRequests, window, Burst(at, n)), from, to)
         == if n < Left(w, maxRequests) then n else Left(w, maxRequests)
    ensures WindowAfter(w, maxRequests, window, Burst(at, n))
         == Open(w.count + if n < Left(w, maxRequests) then n else Left(w, maxRequests), w.expiry)
    decreases n
  {
    if n > 0 {
      var o := Step(w, maxRequests, window, Visit(at, at, at, at, false));
      assert Burst(at, n)[1..] == Burst(at, n - 1);
      BurstAdmits(o.window, maxRequests, window, at, n - 1, from, to);
    }
  }

  /** A burst that opens a window: up to max(1, maxRequests) pass. */
  lemma FirstOfBurst(w: Window, maxRequests: int, window: int, at: int, n: nat, from: int, to: int)
    requires (w.Idle? || at >= w.expiry) && 1 <= n <= Max(1, maxRequests) && window > MILLISECOND
    ensures Admitted(Burst(at, n), Decisions(w, maxRequests, window, Burst(at, n)), from, to)
         == if from <= at <= to then n else 0
    ensures WindowAfter(w, maxRequests, window, Burst(at, n)) == Open(n, TruncateMillis(at + window))
  {
    var o := Step(w, maxRequests, window, Visit(at, at, at, at, false));
    assert o == Outcome(Open(1, TruncateMillis(at + window)), Admit);
    assert Burst(at, n)[1..] == Burst(at, n - 1);
    if from <= at <= to {
      BurstAdmits(o.window, maxRequests, window, at, n - 1, from, to);
    } else {
      BurstAdmits(o.window, maxRequests, window, at, n - 1, at, at);
      NoneOutside(Burst(at, n), Decisions(w, maxRequests, window, Burst(at, n)), from, to);
    }
  }

  /** One request that opens a window, the rest of that window just before it expires, and a whole window's worth
      as it expires. */
  function Worst(maxRequests: int, window: int): seq<Visit> {
    var expiry, most := TruncateMillis(window), Max(1, maxRequests);
    Burst(0, 1) + (Burst(expiry - 1, most - 1) + Burst(expiry, most))
  }

  /** One more request after those: it reads the clock inside the second window, and its Get comes late. */
  function Straggler(window: int): Visit {
    var expiry := TruncateMillis(window);
    var late := expiry + window;
    Visit(expiry - 1 + window - MILLISECOND, late, late, late, true)
  }

  lemma {:induction false} NeverEvicted(slot: Slot, maxRequests: int, window: int, vs: seq<Visit>)
    requires forall i :: 0 <= i < |vs| ==> !vs[i].evicted
    ensures Unstraddled(slot, maxRequests, window, vs)
    decreases vs
  {
    hide SlotStep;
    if vs != [] {
      NeverEvicted(SlotStep(slot, maxRequests, window, vs[0]).slot, maxRequests, window, vs[1..]);
    }
  }

  lemma WorstAdmits(maxRequests: int, window: int, to: int)
    requires window > MILLISECOND && to >= TruncateMillis(window)
    ensures var vs, expiry := Worst(maxRequests, window), TruncateMillis(window);
            && Admitted(vs, Decisions(Idle, maxRequests, window, vs), expiry - 1, to) == 2 * Max(1, maxRequests) - 1
            && WindowAfter(Idle, maxRequests, window, vs)
               == Open(Max(1, maxRequests), TruncateMillis(expiry + window))
  {
    hide Admitted, Decisions, WindowAfter, Burst;
    var expiry, most := TruncateMillis(window), Max(1, maxRequests);
    var a, b, c := Burst(0, 1), Burst(expiry - 1, most - 1), Burst(expiry, most);
    var begun, full := Open(1, expiry), Open(most, expiry);
    FirstOfBurst(Idle, maxRequests, window, 0, 1, expiry - 1, to);
    BurstAdmits(begun, maxRequests, window, expiry - 1, most - 1, expiry - 1, to);
    FirstOfBurst(full, maxRequests, window, expiry, most, expiry - 1, to);
    DecisionsAppend(Idle, maxRequests, window, a, b + c);
    DecisionsAppend(begun, maxRequests, window, b, c);
    AdmittedAppend(b, c, Decisions(begun, maxRequests, window, b), Decisions(full, maxRequests, window, c),
                   expiry - 1, to);
    AdmittedAppend(a, b + c, Decisions(Idle, maxRequests, window, a), Decisions(begun, maxRequests, window, b + c),
                   expiry - 1, to);
  }

  /** 2 * max(1, maxRequests) - 1 cannot be lowered, for any limit and any window above a millisecond: without a
      straddling request, an interval of a single nanosecond can admit that many. */
  lemma UnstraddledBoundIsTight(maxRequests: int, window: int)
    requires window > MILLISECOND
    ensures var vs, expiry := Worst(maxRequests, window), TruncateMillis(window);
            && Serial(vs) && Unstraddled(EMPTY, maxRequests, window, vs)
            && Admitted(vs, SlotDecisions(EMPTY, maxRequests, window, vs), expiry - 1, expiry)
               == 2 * Max(1, maxRequests) - 1
  {
    hide Admitted, Decisions, SlotDecisions, Unstraddled, WindowAfter, SlotAfter;
    var vs := Worst(maxRequests, window);
    NeverEvicted(EMPTY, maxRequests, window, vs);
    WorstAdmits(maxRequests, window, TruncateMillis(window));
    RunAgrees(EMPTY, maxRequests, window, vs);
  }

  lemma {:induction false} DeadlineBy(slot: Slot, maxRequests: int, window: int, vs: seq<Visit>, limit: int)
    requires Serial(vs) && slot.deadline <= limit && (slot.window.Open? ==> slot.window.expiry <= limit)
    requires forall i :: 0 <= i < |vs| ==> vs[i].until == vs[i].stored && vs[i].stored + window <= limit
    ensures SlotAfter(slot, maxRequests, window, vs).deadline <= limit
    decreases vs
  {
    if vs != [] {
      DeadlineBy(SlotStep(slot, maxRequests, window, vs[0]).slot, maxRequests, window, vs[1..], limit);
    }
  }

  /** 2 * max(1, maxRequests) cannot be lowered either, for any limit and any window above a millisecond: a request
      that straddles the second window's deadline is admitted on top of both windows. */
  lemma StoredBoundIsTight(maxRequests: int, window: int)
    requires window > MILLISECOND
    ensures var vs, from := Worst(maxRequests, window) + [Straggler(window)], TruncateMillis(window) - 1;
            && Serial(vs)
            && Admitted(vs, SlotDecisions(EMPTY, maxRequests, window, vs), from, from + window - MILLISECOND)
               == 2 * Max(1, maxRequests)
  {
    hide Admitted, Decisions, SlotDecisions, Unstraddled, WindowAfter, SlotAfter;
    var front, last, expiry := Worst(maxRequests, window), Straggler(window), TruncateMillis(window);
    var vs, from, to := front + [last], expiry - 1, expiry - 1 + window - MILLISECOND;
    NeverEvicted(EMPTY, maxRequests, window, front);
    WorstAdmits(maxRequests, window, to);
    RunAgrees(EMPTY, maxRequests, window, front);
    DeadlineBy(EMPTY, maxRequests, window, front, expiry + window);
    assert vs[..|vs| - 1] == front;
    AdmittedLast(EMPTY, maxRequests, window, vs, from, to);
  }

  // ---------- runs of the text limiter over its store ----------

  /** One limiter's settings, and one request on a key. */
  datatype Limit = Limit(maxRequests: int, window: int)
  datatype Request = Request(key: string, visit: Visit)

  /** The requests on one key, in order. */
  function VisitsOn(key: string, requests: seq<Request>): seq<Visit> {
    if requests == [] then []
    else
      var last := requests[|requests| - 1];
      VisitsOn(key, requests[..|requests| - 1]) + if last.key == key then [last.visit] else []
  }

  /** The decisions on the requests on one key, in order. */
  function DecisionsOn(key: string, requests: seq<Request>, ds: seq<Decision>): (r: seq<Decision>)
    requires |ds| == |requests|
    ensures |r| == |VisitsOn(key, requests)|
  {
    if requests == [] then []
    else
      var n := |requests| - 1;
      DecisionsOn(key, requests[..n], ds[..n]) + if requests[n].key == key then [ds[n]] else []
  }

  /** On this key, the decisions and the stored window are those of its own counter. */
  ghost predicate Follows(
    limit: Limit, key: string, before: map<string, Entry>, after: map<string, Entry>,
    requests: seq<Request>, ds: seq<Decision>)
  {
    && |ds| == |requests|
    && var slot, vs := SlotOf(before, key), VisitsOn(key, requests);
      && DecisionsOn(key, requests, ds) == SlotDecisions(slot, limit.maxRequests, limit.window, vs)
      && SlotOf(after, key) == SlotAfter(slot, limit.maxRequests, limit.window, vs)
  }

  lemma FollowsNext(
    limit: Limit, key: string, before: map<string, Entry>, here: map<string, Entry>, after: map<string, Entry>,
    requests: seq<Request>, ds: seq<Decision>, request: Request, d: Decision)
    requires Follows(limit, key, before, here, requests, ds)
    requires if request.key == key
             then Stepped(SlotOf(after, key), d)
                  == SlotStep(SlotOf(here, key), limit.maxRequests, limit.window, request.visit)
             else SlotOf(after, key) == SlotOf(here, key)
    ensures Follows(limit, key, before, after, requests + [request], ds + [d])
  {
    hide SlotOf, SlotStep;
    var slot, vs := SlotOf(before, key), VisitsOn(key, requests);
    assert (requests + [request])[..|requests|] == requests && (ds + [d])[..|requests|] == ds;
    if request.key == key {
      SlotAppend(slot, limit.maxRequests, limit.window, vs, [request.visit]);
      OneDecision(SlotOf(here, key), limit, request.visit);
    } else {
      assert vs + [] == vs;
    }
  }

  lemma OneDecision(slot: Slot, limit: Limit, v: Visit)
    ensures SlotDecisions(slot, limit.maxRequests, limit.window, [v])
         == [SlotStep(slot, limit.maxRequests, limit.window, v).decision]
    ensures SlotAfter(slot, limit.maxRequests, limit.window, [v])
         == SlotStep(slot, limit.maxRequests, limit.window, v).slot
  {
  }

  /** On this key, any interval of `window - 1ms` admits at most 2 * max(1, maxRequests), and one fewer if no request
      straddles a deadline. */
  ghost predicate Bounded(
    limit: Limit, key: string, before: map<string, Entry>, requests: seq<Request>, ds: seq<Decision>)
    requires |ds| == |requests|
  {
    var slot, vs, most := SlotOf(before, key), VisitsOn(key, requests), Max(1, limit.maxRequests);
    WellKept(slot) && Serial(vs) ==>
      forall from, to {:trigger Admitted(vs, DecisionsOn(key, requests, ds), from, to)} ::
        to - from <= limit.window - MILLISECOND ==>
          var n := Admitted(vs, DecisionsOn(key, requests, ds), from, to);
          n <= 2 * most && (Unstraddled(slot, limit.maxRequests, limit.window, vs) ==> n <= 2 * most - 1)
  }

  /** Whatever follows the counter inherits its bounds. */
  lemma FollowsBounded(
    limit: Limit, key: string, before: map<string, Entry>, after: map<string, Entry>,
    requests: seq<Request>, ds: seq<Decision>)
    requires Follows(limit, key, before, after, requests, ds) && limit.window > 0
    ensures Bounded(limit, key, before, requests, ds)
  {
    hide WellKept, Serial, SlotOf, Admitted, SlotDecisions, Unstraddled;
    var slot, vs := SlotOf(before, key), VisitsOn(key, requests);
    if WellKept(slot) && Serial(vs) {
      forall from, to | to - from <= limit.window - MILLISECOND
        ensures var n, most := Admitted(vs, DecisionsOn(key, requests, ds), from, to), Max(1, limit.maxRequests);
                n <= 2 * most && (Unstraddled(slot, limit.maxRequests, limit.window, vs) ==> n <= 2 * most - 1)
      {
        StoredBound(slot, limit.maxRequests, limit.window, vs, from, to);
        if Unstraddled(slot, limit.maxRequests, limit.window, vs) {
          UnstraddledBound(slot, limit.maxRequests, limit.window, vs, from, to);
        }
      }
    }
  }

  /** A whole run of the text limiter: requests on any keys interleaved, each key with its own limit, expired entries
      evicted or not as the store likes, and the store reading the clock later than the request did. Every key is
      decided as by its own counter, within its bounds. */
  method ServeAll(store: CacheStore, limits: string -> Limit, requests: seq<Request>) returns (ds: seq<Decision>)
    requires forall key :: InInt64(limits(key).maxRequests) && limits(key).window > 0
    requires forall i :: 0 <= i < |requests| ==>
      InInt64(UnixMilli(requests[i].visit.now + limits(requests[i].key).window))
    modifies store
    ensures |ds| == |requests|
    ensures forall key :: Follows(limits(key), key, old(store.entries), store.entries, requests, ds)
    ensures forall key :: Bounded(limits(key), key, old(store.entries), requests, ds)
  {
    hide Follows, SlotStep, Bounded;
    ghost var before := store.entries;
    ds := [];
    FollowsNone(limits, before);
    for i := 0 to |requests|
      invariant |ds| == i
      invariant forall key :: Follows(limits(key), key, before, store.entries, requests[..i], ds)
    {
      var q := requests[i];
      ghost var here := store.entries;
      var d := RateLimitByKey(store, limits(q.key).maxRequests, limits(q.key).window, q.key, q.visit);
      forall key ensures Follows(limits(key), key, before, store.entries, requests[..i] + [q], ds + [d]) {
        FollowsNext(limits(key), key, before, here, store.entries, requests[..i], ds, q, d);
      }
      ds := ds + [d];
      assert requests[..i + 1] == requests[..i] + [q];
    }
    assert requests[..|requests|] == requests;
    forall key ensures Bounded(limits(key), key, before, requests, ds) {
      FollowsBounded(limits(key), key, before, store.entries, requests, ds);
    }
  }

  lemma FollowsNone(limits: string -> Limit, entries: map<string, Entry>)
    ensures forall key :: Follows(limits(key), key, entries, entries, [], [])
  {
  }

  // ---------- Retry-After ----------

  lemma {:induction false} RejectionsChangeNothing(slot: Slot, maxRequests: int, window: int, vs: seq<Visit>)
    requires forall d :: d in SlotDecisions(slot, maxRequests, window, vs) ==> d.Reject?
    ensures SlotAfter(slot, maxRequests, window, vs) == slot
    decreases vs
  {
    if vs != [] {
      var o := SlotStep(slot, maxRequests, window, vs[0]);
      assert o.decision in SlotDecisions(slot, maxRequests, window, vs);
      RejectionsChangeNothing(o.slot, maxRequests, window, vs[1..]);
    }
  }

  /** Waiting the advertised number of seconds always lands past the window's expiry; unless another request has been
      admitted in between, the request made then is admitted and opens a new window. */
  lemma RetryAfterSuffices(
    slot: Slot, maxRequests: int, window: int, v: Visit, between: seq<Visit>, later: Visit)
    requires SlotStep(slot, maxRequests, window, v).decision.Reject?
    requires later.now >= v.until + SlotStep(slot, maxRequests, window, v).decision.retryAfter * SECOND
    requires forall d :: d in SlotDecisions(slot, maxRequests, window, between) ==> d.Reject?
    ensures slot.window.Open?
         && slot.window.expiry < v.until + SlotStep(slot, maxRequests, window, v).decision.retryAfter * SECOND
    ensures SlotStep(SlotAfter(slot, maxRequests, window, between), maxRequests, window, later)
         == Stepped(Slot(Fresh(later.now, window), later.stored + window), Admit)
  {
    RejectionsChangeNothing(slot, maxRequests, window, between);
  }

  /** The advertised wait: the first whole second past the window's expiry, and after an expiry already past, the
      seconds since then off one, with the fraction dropped. */
  lemma RetryAfterExact(slot: Slot, maxRequests: int, window: int, v: Visit)
    requires SlotStep(slot, maxRequests, window, v).decision.Reject?
    ensures slot.window.Open?
    ensures var wait := SlotStep(slot, maxRequests, window, v).decision.retryAfter;
            var remaining := slot.window.expiry - v.until;
            && (remaining >= 0 ==> 1 <= wait && (wait - 1) * 1_000_000_000 <= remaining < wait * 1_000_000_000)
            && (remaining < 0 ==> wait <= 1 && (wait - 2) * 1_000_000_000 < remaining <= (wait - 1) * 1_000_000_000)
  {
  }
}
