/** The health aggregator: one goroutine per checker, a buffered channel, and a select loop with cancellation. */
module Health {
  import opened Options

  datatype Status = Unset | Healthy | Degraded | Unhealthy
  datatype Check = Check(name: string, status: Status, message: string, latency: int)
  datatype Report = Report(status: Status, checks: seq<Check>)

  /** What running one checker yields: its error, if any, and the time it took. */
  datatype Finding = Finding(error: Option<string>, latency: int)

  const BLANK: Check := Check("", Unset, "", 0)

  /** The check a goroutine sends for its checker. */
  function OwnCheck(name: string, f: Finding): Check {
    match f.error
    case None => Check(name, Healthy, "", f.latency)
    case Some(message) => Check(name, Unhealthy, message, f.latency)
  }

  /** The check filled in for a checker not heard from when the context ended. */
  function MissingCheck(name: string, contextError: string): Check {
    Check(name, Unhealthy, contextError, 0)
  }

  /** The report over finished slots: healthy when no slot is unhealthy. */
  function Summary(checks: seq<Check>): Report {
    Report(if exists c | c in checks :: c.status == Unhealthy then Degraded else Healthy, checks)
  }

  /** What Check must return, given who was heard from and why it stopped waiting for the others. */
  function Expected(names: seq<string>, findings: seq<Finding>, received: seq<bool>, contextError: string)
    : (r: seq<Check>)
    requires |findings| == |received| == |names|
    ensures |r| == |names|
    ensures forall i :: 0 <= i < |names| ==>
              r[i] == if received[i] then OwnCheck(names[i], findings[i]) else MissingCheck(names[i], contextError)
  {
    seq(|names|, i requires 0 <= i < |names| =>
          if received[i] then OwnCheck(names[i], findings[i]) else MissingCheck(names[i], contextError))
  }

  /** What a report says, slot by slot and as a whole: a checker heard from is healthy iff it found no error, and
      shows its error and its time; one not heard from is unhealthy with the context's error; and the report is healthy
      iff every checker was heard from and found no error. */
  ghost predicate Tells(
    report: Report, names: seq<string>, findings: seq<Finding>, received: seq<bool>, contextError: string)
    requires |findings| == |received| == |names|
  {
    && |report.checks| == |names|
    && (forall i :: 0 <= i < |names| ==> report.checks[i].name == names[i])
    && (forall i :: 0 <= i < |names| && received[i] && findings[i].error.None? ==>
          report.checks[i].status == Healthy && report.checks[i].message == "")
    && (forall i :: 0 <= i < |names| && received[i] && findings[i].error.Some? ==>
          report.checks[i].status == Unhealthy && report.checks[i].message == findings[i].error.value)
    && (forall i :: 0 <= i < |names| && received[i] ==> report.checks[i].latency == findings[i].latency)
    && (forall i :: 0 <= i < |names| && !received[i] ==>
          report.checks[i].status == Unhealthy && report.checks[i].message == contextError)
    && (report.status == if forall i :: 0 <= i < |names| ==> received[i] && findings[i].error.None?
                         then Healthy else Degraded)
  }

  lemma SummaryTells(names: seq<string>, findings: seq<Finding>, received: seq<bool>, contextError: string)
    requires |findings| == |received| == |names|
    ensures Tells(Summary(Expected(names, findings, received, contextError)), names, findings, received, contextError)
  {
    var checks := Expected(names, findings, received, contextError);
    assert forall i :: 0 <= i < |names| ==> checks[i] in checks;
  }

  lemma NothingWrong()
    ensures Summary([]) == Report(Healthy, [])
  {
  }

  lemma MissingDegrades(names: seq<string>, findings: seq<Finding>, received: seq<bool>, contextError: string)
    requires |findings| == |received| == |names| && exists i :: 0 <= i < |names| && !received[i]
    ensures var checks := Expected(names, findings, received, contextError);
            Summary(checks) == Report(Degraded, checks)
  {
    var checks := Expected(names, findings, received, contextError);
    assert forall i :: 0 <= i < |names| ==> checks[i] in checks;
  }

  function Unreceived(received: seq<bool>): nat {
    if received == [] then 0 else Unreceived(received[..|received| - 1]) + if received[|received| - 1] then 0 else 1
  }

  lemma {:induction false} UnreceivedDrops(received: seq<bool>, i: nat)
    requires i < |received| && !received[i]
    ensures Unreceived(received) == Unreceived(received[i := true]) + 1
  {
    var n := |received| - 1;
    if i < n {
      UnreceivedDrops(received[..n], i);
      assert received[i := true][..n] == received[..n][i := true];
    } else {
      assert received[i := true][..n] == received[..n];
    }
  }

  lemma {:induction false} UnreceivedNone(received: seq<bool>)
    ensures Unreceived(received) == 0 <==> forall i :: 0 <= i < |received| ==> received[i]
  {
    if received != [] {
      UnreceivedNone(received[..|received| - 1]);
    }
  }

  lemma {:induction false} UnreceivedAll(received: seq<bool>)
    requires forall i :: 0 <= i < |received| ==> !received[i]
    ensures Unreceived(received) == |received|
  {
    if received != [] {
      UnreceivedAll(received[..|received| - 1]);
    }
  }

  // ---------- the select loop ----------

  ghost predicate DistinctBelow(indices: seq<nat>, n: nat) {
    && (forall k :: 0 <= k < |indices| ==> indices[k] < n)
    && (forall j, k :: 0 <= j < k < |indices| ==> indices[j] != indices[k])
  }

  function Heard(indices: seq<nat>, n: nat): (received: seq<bool>)
    ensures |received| == n && forall i :: 0 <= i < n ==> received[i] == (i in indices)
  {
    seq(n, i requires 0 <= i < n => i in indices)
  }

  class Aggregator {
    var checkers: seq<string>

    constructor ()
      ensures checkers == []
    {
      checkers := [];
    }

    method Add(name: string)
      modifies this
      ensures checkers == old(checkers) + [name]
    {
      checkers := checkers + [name];
    }

    /** The loop of Check: it hears from `arrivals` in that order and then, unless that was everyone, the context
        ends with `contextError`. The report does not depend on the order. */
    method Collect(findings: seq<Finding>, arrivals: seq<nat>, contextError: Option<string>) returns (report: Report)
      requires |findings| == |checkers| && DistinctBelow(arrivals, |checkers|)
      requires if contextError.None? then |arrivals| == |checkers| else |arrivals| < |checkers|
      ensures report == Summary(Expected(checkers, findings, Heard(arrivals, |checkers|),
                                         if contextError.None? then "" else contextError.value))
      ensures Tells(report, checkers, findings, Heard(arrivals, |checkers|),
                    if contextError.None? then "" else contextError.value)
    {
      hide Tells, OwnCheck, MissingCheck, Summary, Unreceived;
      SummaryTells(checkers, findings, Heard(arrivals, |checkers|),
                   if contextError.None? then "" else contextError.value);
      var n := |checkers|;
      var checks := seq(n, i => BLANK);
      if n == 0 {
        NothingWrong();
        return Report(Healthy, checks);
      }
      var received := seq(n, i => false);
      var remaining := n;
      var k := 0;
      while remaining > 0
        invariant 0 <= k <= |arrivals| && remaining == n - k && |checks| == |received| == n
        invariant received == Heard(arrivals[..k], n)
        invariant forall i :: 0 <= i < n && received[i] ==> checks[i] == OwnCheck(checkers[i], findings[i])
      {
        if k < |arrivals| {
          var index := arrivals[k];
          assert arrivals[..k + 1] == arrivals[..k] + [index];
          checks := checks[index := OwnCheck(checkers[index], findings[index])];
          received := received[index := true];
          remaining := remaining - 1;
          k := k + 1;
        } else {
          assert arrivals[..k] == arrivals;
          checks := FillMissing(checks, received, contextError.value);
          assert checks == Expected(checkers, findings, received, contextError.value);
          SomeoneMissing(arrivals, n);
          MissingDegrades(checkers, findings, received, contextError.value);
          return Report(Degraded, checks);
        }
      }
      assert arrivals[..k] == arrivals;
      EveryoneHeard(arrivals, n);
      assert checks == Expected(checkers, findings, received, "");
      var status := OverallStatus(checks);
      return Report(status, checks);
    }

    /** The cancellation branch: fills in the slots not received. */
    method FillMissing(checks: seq<Check>, received: seq<bool>, contextError: string) returns (filled: seq<Check>)
      requires |checks| == |received| == |checkers|
      ensures |filled| == |checks|
      ensures forall i :: 0 <= i < |checks| ==>
                filled[i] == if received[i] then checks[i] else MissingCheck(checkers[i], contextError)
    {
      filled := checks;
      for i := 0 to |checkers|
        invariant |filled| == |checks|
        invariant forall j :: 0 <= j < |checks| ==>
                    filled[j] == if received[j] || j >= i then checks[j] else MissingCheck(checkers[j], contextError)
      {
        if !received[i] {
          filled := filled[i := MissingCheck(checkers[i], contextError)];
        }
      }
    }

    /** The status pass: stops at the first unhealthy check. */
    method OverallStatus(checks: seq<Check>) returns (status: Status)
      ensures Report(status, checks) == Summary(checks)
    {
      status := Healthy;
      for i := 0 to |checks|
        invariant status == Healthy && forall j :: 0 <= j < i ==> checks[j].status != Unhealthy
      {
        if checks[i].status == Unhealthy {
          assert checks[i] in checks;
          return Degraded;
        }
      }
    }
  }

  lemma {:induction false} HeardCount(indices: seq<nat>, n: nat)
    requires DistinctBelow(indices, n)
    ensures Unreceived(Heard(indices, n)) == n - |indices|
  {
    if indices == [] {
      UnreceivedAll(Heard([], n));
    } else {
      var front, last := indices[..|indices| - 1], indices[|indices| - 1];
      HeardCount(front, n);
      assert indices == front + [last];
      UnreceivedDrops(Heard(front, n), last);
      assert Heard(indices, n) == Heard(front, n)[last := true];
    }
  }

  /** Distinct indices below n that leave one out are fewer than n. */
  lemma Pigeonhole(indices: seq<nat>, n: nat, free: nat)
    requires DistinctBelow(indices, n) && free < n && free !in indices
    ensures |indices| < n
  {
    HeardCount(indices, n);
    UnreceivedNone(Heard(indices, n));
    assert !Heard(indices, n)[free];
  }

  lemma EveryoneHeard(indices: seq<nat>, n: nat)
    requires DistinctBelow(indices, n) && |indices| == n
    ensures forall i :: 0 <= i < n ==> Heard(indices, n)[i]
  {
    HeardCount(indices, n);
    UnreceivedNone(Heard(indices, n));
  }

  lemma SomeoneMissing(indices: seq<nat>, n: nat)
    requires DistinctBelow(indices, n) && |indices| < n
    ensures exists i :: 0 <= i < n && !Heard(indices, n)[i]
  {
    HeardCount(indices, n);
    UnreceivedNone(Heard(indices, n));
  }
}
