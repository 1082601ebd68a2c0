/** The rate limiter when requests for one key interleave between Get and Set, so that updates get lost. */
module RateLimitRaces {
  import opened Options
  import opened Decimal
  import opened RateLimitCodec
  import opened RateLimit

  datatype Config = Config(maxRequests: int, window: int)

  /** Where a request in flight stands: clock read, or value fetched as well. */
  datatype Progress = Started(now: int) | Fetched(now: int, text: Option<string>)

  /** What became of a request read at `now`; a rejection keeps the expiry it was rejected against. */
  datatype Event = Opened(id: nat, now: int) | Counted(id: nat, now: int) | Rejected(id: nat, now: int, expiry: int)

  datatype State = State(clock: int, slot: Option<string>, inFlight: map<nat, Progress>, log: seq<Event>)

  datatype Action =
    | Tick(elapsed: nat)
    | Begin(id: nat)
    | Get(id: nat, served: bool)      // a store error, or an eviction, serves nothing
    | Respond(id: nat, stored: bool)  // a failed Set is ignored
    | Evict

  /** Instants whose window end Go can still express in Unix milliseconds. */
  predicate Expressible(cfg: Config, t: int) {
    InInt64(UnixMilli(t + cfg.window))
  }

  predicate Opens(w: Window, now: int) {
    w.Idle? || now >= w.expiry
  }

  /** The last step of a request: decide on the fetched text, and overwrite the slot unless rejected. */
  function Finish(cfg: Config, s: State, id: nat, now: int, text: Option<string>, stored: bool): State {
    var w := WindowOfText(text);
    var o := Step(w, cfg.maxRequests, cfg.window, Visit(now, s.clock, s.clock, s.clock, false));
    var text' := EncodeRateLimit(o.window.count, o.window.expiry);
    var event :=
      if Opens(w, now) then Opened(id, now)
      else if o.decision.Reject? then Rejected(id, now, w.expiry)
      else Counted(id, now);
    s.(slot := if o.decision.Admit? && stored then Some(text') else s.slot,
       inFlight := s.inFlight - {id},
       log := s.log + [event])
  }

  /** One atomic action; an action that is not enabled changes nothing. */
  function Apply(cfg: Config, s: State, a: Action): State {
    match a
    case Tick(elapsed) =>
      if Expressible(cfg, s.clock + elapsed) then s.(clock := s.clock + elapsed) else s
    case Begin(id) =>
      if id in s.inFlight then s else s.(inFlight := s.inFlight[id := Started(s.clock)])
    case Get(id, served) =>
      if id in s.inFlight && s.inFlight[id].Started?
      then s.(inFlight := s.inFlight[id := Fetched(s.inFlight[id].now, if served then s.slot else None)])
      else s
    case Respond(id, stored) =>
      if id in s.inFlight && s.inFlight[id].Fetched?
      then Finish(cfg, s, id, s.inFlight[id].now, s.inFlight[id].text, stored)
      else s
    case Evict =>
      s.(slot := None)
  }

  function Start(clock: int): State {
    State(clock, None, map[], [])
  }

  function Run(cfg: Config, s: State, actions: seq<Action>): State
    decreases actions
  {
    if actions == [] then s else Run(cfg, Apply(cfg, s, actions[0]), actions[1..])
  }

  // ---------- the inductive invariant ----------

  /** Some request in the log opened a window ending at `expiry`. */
  ghost predicate OpenedFor(cfg: Config, log: seq<Event>, expiry: int) {
    exists j :: 0 <= j < |log| && log[j].Opened? && expiry == TruncateMillis(log[j].now + cfg.window)
  }

  /** A text in circulation belongs to a window that some logged request opened. */
  ghost predicate Grounded(cfg: Config, log: seq<Event>, text: Option<string>) {
    WindowOfText(text).Open? ==> OpenedFor(cfg, log, WindowOfText(text).expiry)
  }

  /** An earlier request opened the very window that the rejection at index i met, before that window's expiry and
      so less than a window after the opener's reading. */
  ghost predicate Excused(cfg: Config, log: seq<Event>, i: nat)
    requires i < |log|
  {
    log[i].Rejected? && log[i].now < log[i].expiry && exists j ::
      0 <= j < i && log[j].Opened? && log[i].expiry == TruncateMillis(log[j].now + cfg.window)
      && log[i].now < log[j].now + cfg.window
  }

  ghost predicate Invariant(cfg: Config, s: State) {
    && Expressible(cfg, s.clock)
    && Grounded(cfg, s.log, s.slot)
    && (forall id :: id in s.inFlight ==> Expressible(cfg, s.inFlight[id].now))
    && (forall id :: id in s.inFlight && s.inFlight[id].Fetched? ==> Grounded(cfg, s.log, s.inFlight[id].text))
    && (forall i :: 0 <= i < |s.log| && s.log[i].Rejected? ==> Excused(cfg, s.log, i))
  }

  lemma LogGrows(cfg: Config, log: seq<Event>, e: Event, text: Option<string>)
    requires Grounded(cfg, log, text)
    ensures Grounded(cfg, log + [e], text)
  {
    hide WindowOfText;
    var w := WindowOfText(text);
    if w.Open? {
      var j :| 0 <= j < |log| && log[j].Opened? && w.expiry == TruncateMillis(log[j].now + cfg.window);
      assert (log + [e])[j] == log[j];
    }
  }

  /** What a finishing request writes is grounded again, even when it overwrites a newer value. */
  lemma WriteGrounded(cfg: Config, s: State, id: nat, now: int, text: Option<string>)
    requires InInt64(cfg.maxRequests) && Expressible(cfg, now) && Grounded(cfg, s.log, text)
    ensures var s' := Finish(cfg, s, id, now, text, true);
            s'.log[|s.log|].Rejected? || Grounded(cfg, s'.log, s'.slot)
  {
    hide DecodeRateLimit, EncodeRateLimit;
    var s' := Finish(cfg, s, id, now, text, true);
    var w := WindowOfText(text);
    if Opens(w, now) {
      DecodeEncode(1, TruncateMillis(now + cfg.window));
      assert s'.log[|s.log|] == Opened(id, now);
    } else if w.count < cfg.maxRequests {
      DecodeEncode(w.count + 1, w.expiry);
      LogGrows(cfg, s.log, s'.log[|s.log|], text);
    }
  }

  lemma FinishKeeps(cfg: Config, s: State, id: nat, now: int, text: Option<string>, stored: bool)
    requires InInt64(cfg.maxRequests) && Invariant(cfg, s)
    requires Expressible(cfg, now) && Grounded(cfg, s.log, text)
    ensures Invariant(cfg, Finish(cfg, s, id, now, text, stored))
  {
    hide WindowOfText, EncodeRateLimit;
    var s' := Finish(cfg, s, id, now, text, stored);
    var e := s'.log[|s.log|];
    assert s'.log == s.log + [e];
    WriteGrounded(cfg, s, id, now, text);
    LogGrows(cfg, s.log, e, s.slot);
    forall k | k in s'.inFlight && s'.inFlight[k].Fetched? ensures Grounded(cfg, s'.log, s'.inFlight[k].text) {
      LogGrows(cfg, s.log, e, s.inFlight[k].text);
    }
    forall i | 0 <= i < |s'.log| && s'.log[i].Rejected? ensures Excused(cfg, s'.log, i) {
      if i < |s.log| {
        assert s.log[i].Rejected?;
        var j :| 0 <= j < i && s.log[j].Opened? && s.log[i].expiry == TruncateMillis(s.log[j].now + cfg.window)
                 && s.log[i].now < s.log[j].now + cfg.window;
        assert s'.log[j] == s.log[j];
      } else {
        var w := WindowOfText(text);
        var j :| 0 <= j < |s.log| && s.log[j].Opened? && w.expiry == TruncateMillis(s.log[j].now + cfg.window);
        assert s'.log[j] == s.log[j];
      }
    }
  }

  lemma ApplyKeeps(cfg: Config, s: State, a: Action)
    requires InInt64(cfg.maxRequests) && Invariant(cfg, s)
    ensures Invariant(cfg, Apply(cfg, s, a))
  {
    hide WindowOfText, EncodeRateLimit, Step;
    match a {
      case Respond(id, stored) =>
        if id in s.inFlight && s.inFlight[id].Fetched? {
          FinishKeeps(cfg, s, id, s.inFlight[id].now, s.inFlight[id].text, stored);
        }
      case Evict =>
        assert WindowOfText(None) == Idle by { NothingStored(); }
      case Get(id, served) =>
        NothingStored();
      case _ =>
    }
  }

  lemma NothingStored()
    ensures WindowOfText(None) == Idle
  {
  }

  lemma {:induction false} RunKeeps(cfg: Config, s: State, actions: seq<Action>)
    requires InInt64(cfg.maxRequests) && Invariant(cfg, s)
    ensures Invariant(cfg, Run(cfg, s, actions))
    decreases actions
  {
    if actions != [] {
      hide Invariant, Apply;
      ApplyKeeps(cfg, s, actions[0]);
      RunKeeps(cfg, Apply(cfg, s, actions[0]), actions[1..]);
    }
  }

  /** In every interleaving, each rejection comes less than `window` after the clock reading of the admitted
      request that opened the stored window it met: constant traffic cannot keep a key throttled for ever. */
  lemma NeverThrottledForever(cfg: Config, clock: int, actions: seq<Action>, i: nat)
    requires InInt64(cfg.maxRequests) && Expressible(cfg, clock)
    requires i < |Run(cfg, Start(clock), actions).log|
    requires Run(cfg, Start(clock), actions).log[i].Rejected?
    ensures Excused(cfg, Run(cfg, Start(clock), actions).log, i)
  {
    RunKeeps(cfg, Start(clock), actions);
  }

  /** A request that nothing interrupts does what the counter's one step does: its decision, what it is logged as, and
      what it leaves in the slot; a failed Set leaves the slot alone. */
  lemma UninterruptedIsStep(cfg: Config, s: State, id: nat, served: bool, stored: bool)
    requires InInt64(cfg.maxRequests) && Expressible(cfg, s.clock) && id !in s.inFlight
    ensures var w := WindowOfText(if served then s.slot else None);
            var o := Step(w, cfg.maxRequests, cfg.window, Visit(s.clock, s.clock, s.clock, s.clock, false));
            var s' := Run(cfg, s, [Begin(id), Get(id, served), Respond(id, stored)]);
            && s'.clock == s.clock && s'.inFlight == s.inFlight
            && if o.decision.Reject? then
                 s'.slot == s.slot && s'.log == s.log + [Rejected(id, s.clock, w.expiry)]
               else
                 && (stored ==> WindowOfText(s'.slot) == o.window) && (!stored ==> s'.slot == s.slot)
                 && s'.log
                    == s.log + [if w.Idle? || s.clock >= w.expiry then Opened(id, s.clock) else Counted(id, s.clock)]
  {
    hide DecodeRateLimit, EncodeRateLimit;
    var actions := [Begin(id), Get(id, served), Respond(id, stored)];
    var text := if served then s.slot else None;
    var w := WindowOfText(text);
    var s1 := Apply(cfg, s, actions[0]);
    var s2 := Apply(cfg, s1, actions[1]);
    assert actions[1..] == [Get(id, served), Respond(id, stored)] && actions[1..][1..] == [Respond(id, stored)];
    assert s2.inFlight[id] == Fetched(s.clock, text);
    var s3 := Finish(cfg, s2, id, s.clock, text, stored);
    assert s2.inFlight - {id} == s.inFlight;
    assert Run(cfg, s2, [Respond(id, stored)]) == s3;
    assert Run(cfg, s, actions) == Run(cfg, s1, actions[1..]) == Run(cfg, s2, actions[1..][1..]);
    DecodeEncode(1, TruncateMillis(s.clock + cfg.window));
    if w.Open? && w.count < cfg.maxRequests {
      DecodeEncode(w.count + 1, w.expiry);
    }
  }

  /** An eviction has the same effect as a fetch that is served nothing: the next request opens a window. */
  lemma EvictedStartsAnew(cfg: Config, s: State, id: nat)
    requires InInt64(cfg.maxRequests) && Expressible(cfg, s.clock) && id !in s.inFlight
    ensures Run(cfg, Apply(cfg, s, Evict), [Begin(id), Get(id, true), Respond(id, true)])
         == Run(cfg, s, [Begin(id), Get(id, false), Respond(id, true)])
  {
    hide EncodeRateLimit, WindowOfText;
    NothingStored();
    RunsAlone(cfg, Apply(cfg, s, Evict), id, true);
    RunsAlone(cfg, s, id, false);
  }

  lemma RunsAlone(cfg: Config, s: State, id: nat, served: bool)
    requires id !in s.inFlight
    ensures var text := if served then s.slot else None;
            var fetched := s.(inFlight := s.inFlight[id := Fetched(s.clock, text)]);
            Run(cfg, s, [Begin(id), Get(id, served), Respond(id, true)])
            == Finish(cfg, fetched, id, s.clock, text, true)
  {
    hide Finish;
    var actions := [Begin(id), Get(id, served), Respond(id, true)];
    assert actions[1..] == [Get(id, served), Respond(id, true)] && actions[1..][1..] == [Respond(id, true)];
    var s1 := Apply(cfg, s, actions[0]);
    var s2 := Apply(cfg, s1, actions[1]);
    assert s2.inFlight == s.inFlight[id := Fetched(s.clock, if served then s.slot else None)];
    assert Run(cfg, s, actions) == Run(cfg, s1, actions[1..]) == Run(cfg, s2, actions[1..][1..]);
    assert Run(cfg, s2, [Respond(id, true)]) == Apply(cfg, s2, Respond(id, true));
  }

  /** Without atomicity the admission bound is lost: limit one, and both of two racing requests pass. */
  lemma RacingRequestsBothPass()
    ensures Run(Config(1, SECOND), Start(0),
                [Begin(0), Begin(1), Get(0, true), Get(1, true), Respond(0, true), Respond(1, true)]).log
         == [Opened(0, 0), Opened(1, 0)]
  {
  }
}
