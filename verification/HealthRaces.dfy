/** Every schedule of the aggregator's goroutines, its channel, its select loop and the end of the context. */
module HealthRaces {
  import opened Options
  import opened Health

  /** A goroutine runs its checker, then has a check to send, then is through. */
  datatype Worker = Running | Sending(check: Check) | Through
  datatype Message = Message(index: nat, check: Check)

  datatype State = State(
    workers: seq<Worker>, channel: seq<Message>,
    checks: seq<Check>, received: seq<bool>, remaining: int,
    contextError: Option<string>, returned: Option<Report>)

  datatype Action =
    | CheckerReturns(i: nat)
    | Send(i: nat)
    | ContextEnds(error: string)
    | Receive
    | Abandon
    | Complete

  /** The capacity of the channel is the number of checkers. */
  predicate Enabled(s: State, a: Action) {
    match a
    case CheckerReturns(i) => i < |s.workers| && s.workers[i].Running?
    case Send(i) => i < |s.workers| && s.workers[i].Sending? && |s.channel| < |s.workers|
    case ContextEnds(_) => s.contextError.None?
    case Receive =>
      && s.returned.None? && s.remaining > 0
      && s.channel != [] && s.channel[0].index < |s.checks| == |s.received|
    case Abandon => s.returned.None? && s.remaining > 0 && s.contextError.Some?
    case Complete => s.returned.None? && s.remaining == 0
  }

  function Abandoned(names: seq<string>, s: State): Report
    requires |s.checks| == |s.received| == |names| && s.contextError.Some?
  {
    Report(Degraded, seq(|names|, i requires 0 <= i < |names| =>
                           if s.received[i] then s.checks[i] else MissingCheck(names[i], s.contextError.value)))
  }

  function Apply(names: seq<string>, findings: seq<Finding>, s: State, a: Action): State
    requires |findings| == |names| == |s.workers| == |s.checks| == |s.received| && Enabled(s, a)
  {
    match a
    case CheckerReturns(i) => s.(workers := s.workers[i := Sending(OwnCheck(names[i], findings[i]))])
    case Send(i) =>
      s.(workers := s.workers[i := Through], channel := s.channel + [Message(i, s.workers[i].check)])
    case ContextEnds(error) => s.(contextError := Some(error))
    case Receive =>
      var m := s.channel[0];
      s.(channel := s.channel[1..], checks := s.checks[m.index := m.check],
         received := s.received[m.index := true], remaining := s.remaining - 1)
    case Abandon => s.(returned := Some(Abandoned(names, s)))
    case Complete => s.(returned := Some(Summary(s.checks)))
  }

  function Start(n: nat): State {
    State(seq(n, i => Running), [], seq(n, i => BLANK), seq(n, i => false), n, None, None)
  }

  // ---------- the invariant ----------

  function Indices(channel: seq<Message>): (r: seq<nat>)
    ensures |r| == |channel| && forall k :: 0 <= k < |r| ==> r[k] == channel[k].index
  {
    if channel == [] then [] else [channel[0].index] + Indices(channel[1..])
  }

  ghost predicate Sized(names: seq<string>, findings: seq<Finding>, s: State) {
    |findings| == |names| == |s.workers| == |s.checks| == |s.received|
  }

  /** The channel holds each index once, with that index's own check, not received yet. */
  ghost predicate ChannelOk(names: seq<string>, findings: seq<Finding>, s: State)
    requires Sized(names, findings, s)
  {
    && DistinctBelow(Indices(s.channel), |names|)
    && forall k :: 0 <= k < |s.channel| ==>
      var m := s.channel[k];
      m.index < |names| && m.check == OwnCheck(names[m.index], findings[m.index]) && !s.received[m.index]
  }

  /** Each goroutine's check is either still to come, or in the channel, or received. */
  ghost predicate WorkersOk(names: seq<string>, findings: seq<Finding>, s: State)
    requires Sized(names, findings, s)
  {
    && (forall i :: 0 <= i < |names| && s.workers[i].Sending? ==> s.workers[i].check == OwnCheck(names[i], findings[i]))
    && (forall i :: 0 <= i < |names| ==> (s.workers[i].Through? <==> s.received[i] || i in Indices(s.channel)))
    && (forall i :: 0 <= i < |names| && s.received[i] ==> s.checks[i] == OwnCheck(names[i], findings[i]))
    && s.remaining == Unreceived(s.received)
  }

  ghost predicate Delivered(names: seq<string>, findings: seq<Finding>, s: State)
    requires Sized(names, findings, s)
  {
    ChannelOk(names, findings, s) && WorkersOk(names, findings, s)
  }

  /** What Check reports once the goroutines in `received` were heard from and the context stands as it does. */
  function ReportNow(names: seq<string>, findings: seq<Finding>, s: State): Report
    requires Sized(names, findings, s)
  {
    Summary(Expected(names, findings, s.received, if s.contextError.None? then "" else s.contextError.value))
  }

  /** A returned report is the summary of what was received before the return, whatever the order, with the actual
      context error for the others; without one, there are no others. */
  ghost predicate ReportOk(names: seq<string>, findings: seq<Finding>, s: State)
    requires Sized(names, findings, s)
  {
    s.returned.Some? ==>
      && s.returned.value == ReportNow(names, findings, s)
      && (s.contextError.None? ==> forall i :: 0 <= i < |names| ==> s.received[i])
  }

  ghost predicate Invariant(names: seq<string>, findings: seq<Finding>, s: State) {
    && Sized(names, findings, s)
    && Delivered(names, findings, s)
    && ReportOk(names, findings, s)
  }

  lemma StartOk(names: seq<string>, findings: seq<Finding>)
    requires |findings| == |names|
    ensures Invariant(names, findings, Start(|names|))
  {
    UnreceivedAll(Start(|names|).received);
  }

  lemma SendKeeps(names: seq<string>, findings: seq<Finding>, s: State, i: nat)
    requires Invariant(names, findings, s) && Enabled(s, Send(i))
    ensures Invariant(names, findings, Apply(names, findings, s, Send(i)))
  {
    hide OwnCheck, Summary, Expected, Unreceived;
    var s' := Apply(names, findings, s, Send(i));
    assert Indices(s'.channel) == Indices(s.channel) + [i];
    assert i !in Indices(s.channel);
  }

  lemma ReceiveChannel(names: seq<string>, findings: seq<Finding>, s: State)
    requires Sized(names, findings, s) && ChannelOk(names, findings, s) && Enabled(s, Receive)
    ensures ChannelOk(names, findings, Apply(names, findings, s, Receive))
  {
  }

  lemma ReceiveWorkers(names: seq<string>, findings: seq<Finding>, s: State)
    requires Sized(names, findings, s) && Delivered(names, findings, s) && Enabled(s, Receive)
    ensures WorkersOk(names, findings, Apply(names, findings, s, Receive))
  {
    hide OwnCheck, Summary, Expected, Unreceived;
    var s', m := Apply(names, findings, s, Receive), s.channel[0];
    assert Indices(s.channel) == [m.index] + Indices(s'.channel);
    UnreceivedDrops(s.received, m.index);
  }

  lemma ReceiveKeeps(names: seq<string>, findings: seq<Finding>, s: State)
    requires Invariant(names, findings, s) && Enabled(s, Receive)
    ensures Invariant(names, findings, Apply(names, findings, s, Receive))
  {
    hide ChannelOk, WorkersOk, Summary, Expected, OwnCheck;
    ReceiveChannel(names, findings, s);
    ReceiveWorkers(names, findings, s);
  }

  lemma AbandonKeeps(names: seq<string>, findings: seq<Finding>, s: State)
    requires Invariant(names, findings, s) && Enabled(s, Abandon)
    ensures Invariant(names, findings, Apply(names, findings, s, Abandon))
  {
    var report := Abandoned(names, s);
    var expected := Expected(names, findings, s.received, s.contextError.value);
    assert report.checks == expected;
    UnreceivedNone(s.received);
    var i :| 0 <= i < |names| && !s.received[i];
    assert expected[i].status == Unhealthy && expected[i] in expected;
  }

  lemma CompleteKeeps(names: seq<string>, findings: seq<Finding>, s: State)
    requires Invariant(names, findings, s) && Enabled(s, Complete)
    ensures Invariant(names, findings, Apply(names, findings, s, Complete))
  {
    UnreceivedNone(s.received);
    assert s.checks == ReportNow(names, findings, s).checks;
  }

  /** A context that ends after the return changes no report. */
  lemma ContextEndKeeps(names: seq<string>, findings: seq<Finding>, s: State, error: string)
    requires Invariant(names, findings, s) && Enabled(s, ContextEnds(error))
    ensures Invariant(names, findings, Apply(names, findings, s, ContextEnds(error)))
  {
    hide OwnCheck;
    if s.returned.Some? {
      assert Expected(names, findings, s.received, "") == Expected(names, findings, s.received, error);
    }
  }

  lemma ApplyKeeps(names: seq<string>, findings: seq<Finding>, s: State, a: Action)
    requires Invariant(names, findings, s) && Enabled(s, a)
    ensures Invariant(names, findings, Apply(names, findings, s, a))
  {
    match a {
      case Send(i) => SendKeeps(names, findings, s, i);
      case Receive => ReceiveKeeps(names, findings, s);
      case Abandon => AbandonKeeps(names, findings, s);
      case Complete => CompleteKeeps(names, findings, s);
      case ContextEnds(error) => ContextEndKeeps(names, findings, s, error);
      case CheckerReturns(_) =>
    }
  }

  // ---------- runs ----------

  /** `states` is a schedule from the start: consecutive states are one enabled action apart. */
  ghost predicate Schedule(names: seq<string>, findings: seq<Finding>, states: seq<State>, actions: seq<Action>) {
    && |findings| == |names| && |states| == |actions| + 1 && states[0] == Start(|names|)
    && forall k :: 0 <= k < |actions| ==>
      Sized(names, findings, states[k]) && Enabled(states[k], actions[k]) &&
      states[k + 1] == Apply(names, findings, states[k], actions[k])
  }

  lemma {:induction false} ScheduleOk(
    names: seq<string>, findings: seq<Finding>, states: seq<State>, actions: seq<Action>, k: nat)
    requires Schedule(names, findings, states, actions) && k < |states|
    ensures Invariant(names, findings, states[k])
  {
    hide Invariant;
    if k == 0 {
      StartOk(names, findings);
    } else {
      ScheduleOk(names, findings, states, actions, k - 1);
      ApplyKeeps(names, findings, states[k - 1], actions[k - 1]);
    }
  }

  /** Nobody ever blocks on the channel, not even a straggler after an early return. */
  lemma SendNeverBlocks(
    names: seq<string>, findings: seq<Finding>, states: seq<State>, actions: seq<Action>, k: nat, i: nat)
    requires Schedule(names, findings, states, actions) && k < |states|
    requires i < |states[k].workers| && states[k].workers[i].Sending?
    ensures Enabled(states[k], Send(i))
  {
    ScheduleOk(names, findings, states, actions, k);
    Pigeonhole(Indices(states[k].channel), |names|, i);
  }

  /** Until it returns, Check can move, or some send can, or it waits for a checker that is still running while
      the context is alive; and `remaining` counts the slots not received. */
  lemma OnlyCheckersDelay(
    names: seq<string>, findings: seq<Finding>, states: seq<State>, actions: seq<Action>, k: nat)
    requires Schedule(names, findings, states, actions) && k < |states|
    ensures states[k].remaining == Unreceived(states[k].received)
    ensures states[k].returned.None? ==>
      || Enabled(states[k], Receive) || Enabled(states[k], Abandon) || Enabled(states[k], Complete)
      || (exists i :: Enabled(states[k], Send(i)))
      || (states[k].contextError.None? && exists i :: Enabled(states[k], CheckerReturns(i)))
  {
    ScheduleOk(names, findings, states, actions, k);
    var s := states[k];
    UnreceivedNone(s.received);
    if s.returned.None? && s.remaining > 0 && s.contextError.None? && s.channel == [] {
      var i :| 0 <= i < |names| && !s.received[i];
      assert i !in Indices(s.channel);
      if s.workers[i].Sending? {
        assert Enabled(s, Send(i));
      } else {
        assert Enabled(s, CheckerReturns(i));
      }
    } else if s.channel != [] {
      assert s.channel[0].index < |names|;
    }
  }

  function Weight(workers: seq<Worker>): nat {
    if workers == [] then 0
    else
      Weight(workers[..|workers| - 1]) +
      match workers[|workers| - 1] case Running => 3 case Sending(_) => 2 case Through => 0
  }

  lemma {:induction false} WeightDrops(workers: seq<Worker>, i: nat, w: Worker)
    requires i < |workers|
    requires (workers[i].Running? && w.Sending?) || (workers[i].Sending? && w.Through?)
    ensures Weight(workers[i := w]) == Weight(workers) - if w.Sending? then 1 else 2
  {
    var n := |workers| - 1;
    if i < n {
      WeightDrops(workers[..n], i, w);
      assert workers[i := w][..n] == workers[..n][i := w];
    } else {
      assert workers[i := w][..n] == workers[..n];
    }
  }

  lemma {:induction false} WeightAtStart(n: nat)
    ensures Weight(seq(n, i => Running)) == 3 * n
  {
    if n > 0 {
      WeightAtStart(n - 1);
      assert seq(n, i => Running)[..n - 1] == seq(n - 1, i => Running);
    }
  }

  function Potential(s: State): nat {
    Weight(s.workers) + |s.channel| + (if s.contextError.None? then 1 else 0) + if s.returned.None? then 1 else 0
  }

  lemma ApplyDrops(names: seq<string>, findings: seq<Finding>, s: State, a: Action)
    requires Sized(names, findings, s) && Enabled(s, a)
    ensures Potential(Apply(names, findings, s, a)) == Potential(s) - 1
  {
    hide Expected, OwnCheck, Summary;
    match a {
      case CheckerReturns(i) => WeightDrops(s.workers, i, Sending(OwnCheck(names[i], findings[i])));
      case Send(i) => WeightDrops(s.workers, i, Through);
      case _ =>
    }
  }

  lemma {:induction false} PotentialAfter(
    names: seq<string>, findings: seq<Finding>, states: seq<State>, actions: seq<Action>, k: nat)
    requires Schedule(names, findings, states, actions) && k < |states|
    ensures Potential(states[k]) == 3 * |names| + 2 - k
  {
    hide Potential, Apply;
    if k == 0 {
      StartPotential(|names|);
    } else {
      PotentialAfter(names, findings, states, actions, k - 1);
      ApplyDrops(names, findings, states[k - 1], actions[k - 1]);
    }
  }

  lemma StartPotential(n: nat)
    ensures Potential(Start(n)) == 3 * n + 2
  {
    WeightAtStart(n);
  }

  /** Termination: no schedule is longer than 3n + 2 actions, and one in which nothing but the end of the context
      can still happen has returned: so Check returns once every checker finishes, or the context ends. */
  lemma SchedulesEnd(names: seq<string>, findings: seq<Finding>, states: seq<State>, actions: seq<Action>)
    requires Schedule(names, findings, states, actions)
    ensures |actions| <= 3 * |names| + 2
    ensures (forall a :: Enabled(states[|actions|], a) ==> a.ContextEnds?) ==> states[|actions|].returned.Some?
  {
    PotentialAfter(names, findings, states, actions, |actions|);
    OnlyCheckersDelay(names, findings, states, actions, |actions|);
  }

  /** The report of any schedule, at the return and for ever after: each slot tells its own checker's finding iff that
      was received, and otherwise the context's error; the report is healthy exactly when every checker was received
      without an error. Without cancellation all were, so it is the same report for all schedules. */
  lemma ReportsAreExact(
    names: seq<string>, findings: seq<Finding>, states: seq<State>, actions: seq<Action>, k: nat)
    requires Schedule(names, findings, states, actions) && k < |states| && states[k].returned.Some?
    ensures var s := states[k];
            var report := s.returned.value;
            && |s.received| == |names|
            && Tells(report, names, findings, s.received, if s.contextError.None? then "" else s.contextError.value)
            && (s.contextError.None? ==>
                  && (forall i :: 0 <= i < |names| ==> s.received[i])
                  && report == Summary(Expected(names, findings, seq(|names|, i => true), "")))
  {
    hide Tells, OwnCheck, Summary, Expected, Enabled, Apply;
    ScheduleOk(names, findings, states, actions, k);
    var s := states[k];
    var report := s.returned.value;
    assert report == ReportNow(names, findings, s);
    SummaryTells(names, findings, s.received, if s.contextError.None? then "" else s.contextError.value);
    if s.contextError.None? {
      assert s.received == seq(|names|, i => true);
    }
  }

  /** The context error that a report shows is the one with which the context ended. */
  lemma {:induction false} ContextErrorIsActual(
    names: seq<string>, findings: seq<Finding>, states: seq<State>, actions: seq<Action>, k: nat)
    requires Schedule(names, findings, states, actions) && k < |states|
    ensures states[k].contextError.Some? <==> exists j :: 0 <= j < k && actions[j].ContextEnds?
    ensures forall j :: 0 <= j < k && actions[j].ContextEnds? ==> states[k].contextError == Some(actions[j].error)
    decreases k
  {
    hide OwnCheck, Summary, Abandoned;
    if k > 0 {
      ContextErrorIsActual(names, findings, states, actions, k - 1);
      assert Enabled(states[k - 1], actions[k - 1]);
    }
  }

  /** Once Check has returned, its report and what it had received never change. */
  lemma {:induction false} ReturnIsFinal(
    names: seq<string>, findings: seq<Finding>, states: seq<State>, actions: seq<Action>, j: nat, k: nat)
    requires Schedule(names, findings, states, actions) && j <= k < |states| && states[j].returned.Some?
    ensures states[k].returned == states[j].returned && states[k].received == states[j].received
    decreases k
  {
    if j < k {
      ReturnIsFinal(names, findings, states, actions, j, k - 1);
    }
  }
}
