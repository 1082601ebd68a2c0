/** Team membership lookups racing with database writes, invalidations, expiries and each other. */
module TeamMembershipRaces {
  import opened Options
  import opened TeamMembership

  /** The database holds `db` from `since` until the next version. */
  datatype Version = Version(since: int, db: Db)

  /** An answer with its history: the instant and the version of its last read, and whether the two reads tore. */
  datatype Answer = Answer(
    userId: string, teamId: string, membership: Membership, asOf: int, version: nat, torn: bool)

  datatype Stamped = Stamped(answer: Answer, deadline: int)

  datatype Reader =
    | Missed(userId: string, teamId: string)
    | Unowned(userId: string, teamId: string)
    | Queried(answer: Answer)

  datatype Return = Return(userId: string, teamId: string, answer: Answer, at: int)

  datatype State = State(
    clock: int, versions: seq<Version>, entries: map<string, Stamped>, readers: map<nat, Reader>, log: seq<Return>)

  datatype Action =
    | Tick(elapsed: nat)
    | Write(db: Db)
    | Invalidate(key: string)
    | Evict(key: string)
    | Get(id: nat, userId: string, teamId: string, served: bool)
    | ReadTeam(id: nat)
    | ReadPivot(id: nat)
    | QueryFails(id: nat)
    | Finish(id: nat, stored: bool)

  function Now(s: State): Db
    requires s.versions != []
  {
    s.versions[|s.versions| - 1].db
  }

  function SetReader(s: State, id: nat, r: Reader): State {
    s.(readers := s.readers[id := r])
  }

  /** The answer a reader has after reading the pivot row: torn when the teams row has changed meanwhile so that
      it alone settles the answer, and to something else. */
  function PivotAnswer(s: State, u: string, t: string): Answer
    requires s.versions != []
  {
    var first, second := FirstRead(Now(s), u, t), SecondRead(Now(s), u, t);
    Answer(u, t, second, s.clock, |s.versions| - 1, first.Some? && first.value != second)
  }

  /** The answer a reader has when the teams row settled it. */
  function OwnerAnswer(s: State, u: string, t: string): Answer
    requires s.versions != [] && FirstRead(Now(s), u, t).Some?
  {
    Answer(u, t, FirstRead(Now(s), u, t).value, s.clock, |s.versions| - 1, false)
  }

  /** One atomic action; `delay` bounds the time from the deciding read to the Set. Actions not enabled do nothing. */
  function Apply(delay: int, s: State, a: Action): State
    requires s.versions != []
  {
    match a
    case Tick(elapsed) => s.(clock := s.clock + elapsed)
    case Write(db) => s.(versions := s.versions + [Version(s.clock, db)])
    case Invalidate(key) => s.(entries := s.entries - {key})
    case Evict(key) => s.(entries := s.entries - {key})
    case Get(id, u, t, served) =>
      var key := BuildKey(u, t);
      if id in s.readers || ':' in u then s
      else if key in s.entries && served && s.clock < s.entries[key].deadline
      then s.(log := s.log + [Return(u, t, s.entries[key].answer, s.clock)])
      else SetReader(s, id, Missed(u, t))
    case ReadTeam(id) =>
      if id in s.readers && s.readers[id].Missed?
      then
        var u, t := s.readers[id].userId, s.readers[id].teamId;
        SetReader(s, id, if FirstRead(Now(s), u, t).Some? then Queried(OwnerAnswer(s, u, t)) else Unowned(u, t))
      else s
    case ReadPivot(id) =>
      if id in s.readers && s.readers[id].Unowned?
      then SetReader(s, id, Queried(PivotAnswer(s, s.readers[id].userId, s.readers[id].teamId)))
      else s
    case QueryFails(id) =>
      if id in s.readers && !s.readers[id].Queried? then s.(readers := s.readers - {id}) else s
    case Finish(id, stored) =>
      if id in s.readers && s.readers[id].Queried? && s.clock <= s.readers[id].answer.asOf + delay
      then
        var answer := s.readers[id].answer;
        var key := BuildKey(answer.userId, answer.teamId);
        State(s.clock, s.versions,
              if stored then s.entries[key := Stamped(answer, s.clock + TTL)] else s.entries,
              s.readers - {id},
              s.log + [Return(answer.userId, answer.teamId, answer, s.clock)])
      else s
  }

  function Start(clock: int, db: Db): State {
    State(clock, [Version(clock, db)], map[], map[], [])
  }

  function Run(delay: int, s: State, actions: seq<Action>): (s': State)
    requires s.versions != []
    ensures s'.versions != []
    decreases actions
  {
    if actions == [] then s else Run(delay, Apply(delay, s, actions[0]), actions[1..])
  }

  // ---------- the invariant ----------

  /** The i-th version is in force at the instant `at`. */
  predicate InForce(versions: seq<Version>, i: int, at: int) {
    && 0 <= i < |versions|
    && versions[i].since <= at && (i + 1 < |versions| ==> at <= versions[i + 1].since)
  }

  /** At the instant `at`, the database said that the membership of (u, t) is m. */
  ghost predicate TrueAt(versions: seq<Version>, at: int, u: string, t: string, m: Membership) {
    exists i :: InForce(versions, i, at) && QueryMembership(versions[i].db, u, t) == m
  }

  /** An answer for the pair it is filed under, with the version in force at its last read, and exactly that
      version's answer unless torn. */
  ghost predicate Sound(versions: seq<Version>, clock: int, u: string, t: string, a: Answer) {
    && a.userId == u && a.teamId == t && a.asOf <= clock
    && InForce(versions, a.version, a.asOf)
    && (a.torn <==> QueryMembership(versions[a.version].db, u, t) != a.membership)
  }

  ghost predicate ReaderOk(s: State, r: Reader) {
    match r
    case Missed(u, t) => ':' !in u
    case Unowned(u, t) => ':' !in u
    case Queried(a) => ':' !in a.userId && Sound(s.versions, s.clock, a.userId, a.teamId, a)
  }

  ghost predicate EntryOk(delay: int, s: State, key: string, e: Stamped) {
    && key == BuildKey(e.answer.userId, e.answer.teamId) && ':' !in e.answer.userId
    && Sound(s.versions, s.clock, e.answer.userId, e.answer.teamId, e.answer)
    && e.deadline <= e.answer.asOf + delay + TTL
  }

  ghost predicate ReturnOk(delay: int, s: State, r: Return) {
    && r.at <= s.clock && r.at - TTL - delay < r.answer.asOf <= r.at
    && Sound(s.versions, s.clock, r.userId, r.teamId, r.answer)
  }

  ghost predicate Invariant(delay: int, s: State) {
    && s.versions != []
    && s.versions[|s.versions| - 1].since <= s.clock
    && (forall key :: key in s.entries ==> EntryOk(delay, s, key, s.entries[key]))
    && (forall id :: id in s.readers ==> ReaderOk(s, s.readers[id]))
    && (forall i :: 0 <= i < |s.log| ==> ReturnOk(delay, s, s.log[i]))
  }

  /** Time passing and new versions leave what was true then true then. */
  lemma SoundLater(s: State, s': State, u: string, t: string, a: Answer)
    requires Sound(s.versions, s.clock, u, t, a) && s.clock <= s'.clock
    requires s'.versions == s.versions || exists db :: s'.versions == s.versions + [Version(s.clock, db)]
    ensures Sound(s'.versions, s'.clock, u, t, a)
  {
    hide QueryMembership;
  }

  lemma AllLater(delay: int, s: State, s': State)
    requires Invariant(delay, s) && s.clock <= s'.clock
    requires s'.versions == s.versions || exists db :: s'.versions == s.versions + [Version(s.clock, db)]
    requires s'.entries == s.entries && s'.readers == s.readers && s'.log == s.log
    ensures Invariant(delay, s')
  {
    hide Sound;
    forall key | key in s.entries ensures EntryOk(delay, s', key, s.entries[key]) {
      assert EntryOk(delay, s, key, s.entries[key]);
      SoundLater(s, s', s.entries[key].answer.userId, s.entries[key].answer.teamId, s.entries[key].answer);
    }
    forall id | id in s.readers ensures ReaderOk(s', s.readers[id]) {
      assert ReaderOk(s, s.readers[id]);
      if s.readers[id].Queried? {
        SoundLater(s, s', s.readers[id].answer.userId, s.readers[id].answer.teamId, s.readers[id].answer);
      }
    }
    forall i | 0 <= i < |s.log| ensures ReturnOk(delay, s', s.log[i]) {
      assert ReturnOk(delay, s, s.log[i]);
      SoundLater(s, s', s.log[i].userId, s.log[i].teamId, s.log[i].answer);
    }
  }

  /** An answer read from the current version is sound. */
  lemma ReadIsSound(s: State, a: Answer)
    requires s.versions != [] && s.versions[|s.versions| - 1].since <= s.clock
    requires a.asOf == s.clock && a.version == |s.versions| - 1
    requires a.torn <==> a.membership != QueryMembership(Now(s), a.userId, a.teamId)
    ensures Sound(s.versions, s.clock, a.userId, a.teamId, a)
  {
  }

  lemma GetKeeps(delay: int, s: State, id: nat, u: string, t: string, served: bool)
    requires delay >= 0 && Invariant(delay, s)
    ensures Invariant(delay, Apply(delay, s, Get(id, u, t, served)))
  {
    hide Sound, FirstRead, SecondRead, QueryMembership, BuildKey;
    SoundMeans(s);
    var key := BuildKey(u, t);
    if key in s.entries && ':' !in u {
      assert EntryOk(delay, s, key, s.entries[key]);
      KeysDistinct(u, t, s.entries[key].answer.userId, s.entries[key].answer.teamId);
    }
  }

  lemma ReadTeamKeeps(delay: int, s: State, id: nat)
    requires delay >= 0 && Invariant(delay, s)
    ensures Invariant(delay, Apply(delay, s, ReadTeam(id)))
  {
    hide Sound, FirstRead, SecondRead, QueryMembership, BuildKey;
    if id in s.readers && s.readers[id].Missed? {
      var u, t := s.readers[id].userId, s.readers[id].teamId;
      assert ReaderOk(s, s.readers[id]);
      if FirstRead(Now(s), u, t).Some? {
        DecidedByFirst(Now(s), u, t);
        ReadIsSound(s, OwnerAnswer(s, u, t));
      }
    }
  }

  lemma ReadPivotKeeps(delay: int, s: State, id: nat)
    requires delay >= 0 && Invariant(delay, s)
    ensures Invariant(delay, Apply(delay, s, ReadPivot(id)))
  {
    hide Sound, FirstRead, SecondRead, QueryMembership, BuildKey;
    if id in s.readers && s.readers[id].Unowned? {
      var u, t := s.readers[id].userId, s.readers[id].teamId;
      assert ReaderOk(s, s.readers[id]);
      PivotTears(s, u, t);
      ReadIsSound(s, PivotAnswer(s, u, t));
    }
  }

  lemma FinishKeeps(delay: int, s: State, id: nat, stored: bool)
    requires delay >= 0 && Invariant(delay, s)
    ensures Invariant(delay, Apply(delay, s, Finish(id, stored)))
  {
    hide Sound, FirstRead, SecondRead, QueryMembership, BuildKey;
    SoundMeans(s);
    assert id in s.readers ==> ReaderOk(s, s.readers[id]);
  }

  lemma ApplyKeeps(delay: int, s: State, a: Action)
    requires delay >= 0 && Invariant(delay, s)
    ensures Invariant(delay, Apply(delay, s, a))
  {
    hide Sound, FirstRead, SecondRead, QueryMembership, BuildKey;
    match a {
      case Tick(_) => AllLater(delay, s, Apply(delay, s, a));
      case Write(_) => AllLater(delay, s, Apply(delay, s, a));
      case Get(id, u, t, served) => GetKeeps(delay, s, id, u, t, served);
      case ReadTeam(id) => ReadTeamKeeps(delay, s, id);
      case ReadPivot(id) => ReadPivotKeeps(delay, s, id);
      case Finish(id, stored) => FinishKeeps(delay, s, id, stored);
      case _ =>
    }
  }

  lemma SoundMeans(s: State)
    ensures forall u, t, a :: Sound(s.versions, s.clock, u, t, a) ==> a.asOf <= s.clock
  {
  }

  lemma DecidedByFirst(db: Db, u: string, t: string)
    requires FirstRead(db, u, t).Some?
    ensures FirstRead(db, u, t).value == QueryMembership(db, u, t)
  {
  }

  /** The two reads tear exactly when the later database answers the whole query otherwise. */
  lemma PivotTears(s: State, u: string, t: string)
    requires s.versions != []
    ensures PivotAnswer(s, u, t).torn <==> PivotAnswer(s, u, t).membership != QueryMembership(Now(s), u, t)
  {
  }

  lemma {:induction false} RunKeeps(delay: int, s: State, actions: seq<Action>)
    requires delay >= 0 && Invariant(delay, s)
    ensures Invariant(delay, Run(delay, s, actions))
    decreases actions
  {
    if actions != [] {
      hide Invariant, Apply;
      ApplyKeeps(delay, s, actions[0]);
      RunKeeps(delay, Apply(delay, s, actions[0]), actions[1..]);
    }
  }

  /** In every interleaving, a membership returned at `at` has its last read in (at - TTL - delay, at], and is the
      answer for that very pair of the database which that read saw exactly when its two reads did not tear. */
  lemma ReturnedWasTrue(delay: int, clock: int, db: Db, actions: seq<Action>, i: nat)
    requires delay >= 0 && i < |Run(delay, Start(clock, db), actions).log|
    ensures var s := Run(delay, Start(clock, db), actions);
            var r := s.log[i];
            && r.at - TTL - delay < r.answer.asOf <= r.at <= s.clock
            && InForce(s.versions, r.answer.version, r.answer.asOf)
            && (!r.answer.torn <==>
                  QueryMembership(s.versions[r.answer.version].db, r.userId, r.teamId) == r.answer.membership)
  {
    RunKeeps(delay, Start(clock, db), actions);
  }

  // ---------- lookups that nothing interrupts ----------

  lemma RunStep(delay: int, s: State, a: Action, rest: seq<Action>)
    requires s.versions != []
    ensures Run(delay, s, [a] + rest) == Run(delay, Apply(delay, s, a), rest)
  {
    hide Apply;
    assert ([a] + rest)[1..] == rest;
  }

  /** A hit answers from the entry and changes nothing else. */
  lemma HitAnswers(delay: int, s: State, id: nat, u: string, t: string)
    requires s.versions != [] && id !in s.readers && ':' !in u
    requires BuildKey(u, t) in s.entries && s.clock < s.entries[BuildKey(u, t)].deadline
    ensures Apply(delay, s, Get(id, u, t, true))
         == s.(log := s.log + [Return(u, t, s.entries[BuildKey(u, t)].answer, s.clock)])
  {
  }

  /** Both reads of a miss, with nothing between them, find the query's answer. */
  lemma QueryRuns(delay: nat, s: State, id: nat, u: string, t: string, served: bool, rest: seq<Action>)
    requires s.versions != [] && id !in s.readers && ':' !in u
    requires BuildKey(u, t) in s.entries && served ==> s.clock >= s.entries[BuildKey(u, t)].deadline
    ensures var a := Answer(u, t, QueryMembership(Now(s), u, t), s.clock, |s.versions| - 1, false);
            Run(delay, s, [Get(id, u, t, served)] + ([ReadTeam(id)] + ([ReadPivot(id)] + rest)))
            == Run(delay, SetReader(s, id, Queried(a)), rest)
  {
    hide BuildKey, Run;
    var a := Answer(u, t, QueryMembership(Now(s), u, t), s.clock, |s.versions| - 1, false);
    var s1 := SetReader(s, id, Missed(u, t));
    var s2 := Apply(delay, s1, ReadTeam(id));
    assert Apply(delay, s2, ReadPivot(id)) == SetReader(s, id, Queried(a));
    RunStep(delay, s2, ReadPivot(id), rest);
    RunStep(delay, s1, ReadTeam(id), [ReadPivot(id)] + rest);
    RunStep(delay, s, Get(id, u, t, served), [ReadTeam(id)] + ([ReadPivot(id)] + rest));
  }

  /** A miss that nothing interrupts answers as the database does at that moment, and leaves exactly that answer
      behind for five minutes if its Set succeeds. */
  lemma MissAnswers(delay: nat, s: State, id: nat, u: string, t: string, served: bool, stored: bool)
    requires s.versions != [] && id !in s.readers && ':' !in u
    requires BuildKey(u, t) in s.entries && served ==> s.clock >= s.entries[BuildKey(u, t)].deadline
    ensures var a := Answer(u, t, QueryMembership(Now(s), u, t), s.clock, |s.versions| - 1, false);
            Run(delay, s, [Get(id, u, t, served)] + ([ReadTeam(id)] + ([ReadPivot(id)] + ([Finish(id, stored)] + []))))
            == State(s.clock, s.versions,
                     if stored then s.entries[BuildKey(u, t) := Stamped(a, s.clock + 300_000_000_000)] else s.entries,
                     s.readers, s.log + [Return(u, t, a, s.clock)])
  {
    hide BuildKey, Run, QueryMembership, FirstRead, SecondRead;
    var a := Answer(u, t, QueryMembership(Now(s), u, t), s.clock, |s.versions| - 1, false);
    var asked := SetReader(s, id, Queried(a));
    var done := Apply(delay, asked, Finish(id, stored));
    assert done.readers == s.readers;
    QueryRuns(delay, s, id, u, t, served, [Finish(id, stored)] + []);
    RunStep(delay, asked, Finish(id, stored), []);
    RunNone(delay, done);
  }

  lemma RunNone(delay: int, s: State)
    requires s.versions != []
    ensures Run(delay, s, []) == s
  {
  }

  /** A lookup whose query fails returns nothing and leaves nothing behind. */
  lemma FailedQueryLeavesNothing(delay: nat, s: State, id: nat, u: string, t: string, served: bool)
    requires s.versions != [] && id !in s.readers && ':' !in u
    requires BuildKey(u, t) in s.entries && served ==> s.clock >= s.entries[BuildKey(u, t)].deadline
    ensures Apply(delay, Apply(delay, s, Get(id, u, t, served)), QueryFails(id)) == s
  {
    hide BuildKey;
    assert s.readers[id := Missed(u, t)] - {id} == s.readers;
  }

  /** An eviction takes the entry as an invalidation does. */
  lemma EvictionIsInvalidation(delay: nat, s: State, key: string)
    requires s.versions != []
    ensures Apply(delay, s, Evict(key)) == Apply(delay, s, Invalidate(key))
    ensures key !in Apply(delay, s, Evict(key)).entries
  {
  }

  // ---------- what an invalidation guarantees ----------

  /** Whatever the cache and the lookups hold of this pair was read from the n-th version or a later one; and so was
      whatever was returned for it after the first `from` returns. */
  ghost predicate ReadSince(n: nat, from: nat, u: string, t: string, s: State) {
    && n < |s.versions|
    && (BuildKey(u, t) in s.entries ==> s.entries[BuildKey(u, t)].answer.version >= n)
    && (forall id :: id in s.readers && s.readers[id].Queried? ==>
          var a := s.readers[id].answer;
          a.userId == u && a.teamId == t ==> a.version >= n)
    && (forall i :: from <= i < |s.log| ==>
          (s.log[i].userId == u && s.log[i].teamId == t ==> s.log[i].answer.version >= n))
  }

  lemma ReadSinceKeeps(delay: int, n: nat, from: nat, u: string, t: string, s: State, a: Action)
    requires ':' !in u && Invariant(delay, s) && ReadSince(n, from, u, t, s)
    ensures ReadSince(n, from, u, t, Apply(delay, s, a))
  {
    hide Sound, FirstRead, SecondRead, QueryMembership, BuildKey;
    match a {
      case Get(_, u', t', _) =>
        if BuildKey(u', t') in s.entries {
          assert EntryOk(delay, s, BuildKey(u', t'), s.entries[BuildKey(u', t')]);
        }
      case Finish(id, _) =>
        if id in s.readers && s.readers[id].Queried? {
          var answer := s.readers[id].answer;
          assert ReaderOk(s, s.readers[id]);
          if BuildKey(answer.userId, answer.teamId) == BuildKey(u, t) {
            KeysDistinct(answer.userId, answer.teamId, u, t);
          }
        }
      case _ =>
    }
  }

  lemma {:induction false} ReadSinceRun(
    delay: int, n: nat, from: nat, u: string, t: string, s: State, actions: seq<Action>)
    requires delay >= 0 && ':' !in u && Invariant(delay, s) && ReadSince(n, from, u, t, s)
    ensures ReadSince(n, from, u, t, Run(delay, s, actions))
    decreases actions
  {
    if actions != [] {
      hide Invariant, Apply, ReadSince;
      ApplyKeeps(delay, s, actions[0]);
      ReadSinceKeeps(delay, n, from, u, t, s, actions[0]);
      ReadSinceRun(delay, n, from, u, t, Apply(delay, s, actions[0]), actions[1..]);
    }
  }

  /** No finished query for the pair waits for its Set. */
  predicate NothingToStore(s: State, u: string, t: string) {
    forall id | id in s.readers && s.readers[id].Queried? ::
      s.readers[id].answer.userId != u || s.readers[id].answer.teamId != t
  }

  /** Once a pair is invalidated while no finished query for it waits for its Set, every later answer for it was read
      from the database as it stood at the invalidation or later, in every interleaving. */
  lemma InvalidationIsSeen(
    delay: int, clock: int, db: Db, before: seq<Action>, u: string, t: string, after: seq<Action>, i: nat)
    requires delay >= 0 && ':' !in u
    requires NothingToStore(Run(delay, Start(clock, db), before), u, t)
    ensures var s := Run(delay, Start(clock, db), before);
            var s' := Run(delay, Apply(delay, s, Invalidate(BuildKey(u, t))), after);
            |s.log| <= i < |s'.log| && s'.log[i].userId == u && s'.log[i].teamId == t ==>
              |s.versions| - 1 <= s'.log[i].answer.version < |s'.versions|
  {
    hide BuildKey, Sound;
    var s := Run(delay, Start(clock, db), before);
    RunKeeps(delay, Start(clock, db), before);
    var dropped := Apply(delay, s, Invalidate(BuildKey(u, t)));
    ApplyKeeps(delay, s, Invalidate(BuildKey(u, t)));
    ReadSinceRun(delay, |s.versions| - 1, |s.log|, u, t, dropped, after);
    RunKeeps(delay, dropped, after);
    InForceMeans();
  }

  lemma InForceMeans()
    ensures forall versions, clock, u, t, a :: Sound(versions, clock, u, t, a) ==> 0 <= a.version < |versions|
  {
  }

  /** The condition is needed: a query that finished before a write, but stores its answer after the invalidation, puts
      the old answer back, and the next lookup returns it, whatever was written. */
  lemma StaleAnswerReturns(delay: nat, old_: Db, new_: Db, u: string, t: string)
    requires ':' !in u
    ensures var s := Run(delay, Start(0, old_),
                         [Get(0, u, t, true)] + ([ReadTeam(0)] + ([ReadPivot(0)] + ([Write(new_)] +
                         ([Invalidate(BuildKey(u, t))] + ([Finish(0, true)] + ([Get(1, u, t, true)] + [])))))));
            && s.versions == [Version(0, old_), Version(0, new_)] && |s.log| == 2
            && s.log[1] == Return(u, t, Answer(u, t, QueryMembership(old_, u, t), 0, 0, false), 0)
  {
    hide BuildKey, Run, QueryMembership, FirstRead, SecondRead;
    var a := Answer(u, t, QueryMembership(old_, u, t), 0, 0, false);
    var s0 := Start(0, old_);
    var s3 := SetReader(s0, 0, Queried(a));
    var s4 := s3.(versions := [Version(0, old_), Version(0, new_)]);
    assert Apply(delay, s3, Write(new_)) == s4;
    assert Apply(delay, s4, Invalidate(BuildKey(u, t))) == s4;
    var s6 := Apply(delay, s4, Finish(0, true));
    assert s6.entries == map[BuildKey(u, t) := Stamped(a, TTL)] && s6.log == [Return(u, t, a, 0)];
    var s7 := Apply(delay, s6, Get(1, u, t, true));
    RunNone(delay, s7);
    var r6 := [Get(1, u, t, true)] + [];
    var r5 := [Finish(0, true)] + r6;
    var r4 := [Invalidate(BuildKey(u, t))] + r5;
    RunStep(delay, s6, Get(1, u, t, true), []);
    RunStep(delay, s4, Finish(0, true), r6);
    RunStep(delay, s4, Invalidate(BuildKey(u, t)), r5);
    RunStep(delay, s3, Write(new_), r4);
    QueryRuns(delay, s0, 0, u, t, true, [Write(new_)] + r4);
  }

  // ---------- lookups that no write disturbs ----------

  /** The condition holds of every action of the run, in the state in which it happens. */
  predicate Throughout(delay: int, s: State, actions: seq<Action>, ok: (State, Action) -> bool)
    requires s.versions != []
    decreases actions
  {
    actions == [] || (ok(s, actions[0]) && Throughout(delay, Apply(delay, s, actions[0]), actions[1..], ok))
  }

  /** No write happens while some lookup is between its two reads: queryMembership reads atomically. */
  predicate Atomic(s: State, a: Action) {
    a.Write? ==> forall id | id in s.readers :: !s.readers[id].Unowned?
  }

  /** No write deletes a team, or hands it to the user, while the user's lookup of it is between its two reads. */
  predicate Undisturbed(s: State, a: Action) {
    a.Write? ==> forall id | id in s.readers && s.readers[id].Unowned? ::
      FirstRead(a.db, s.readers[id].userId, s.readers[id].teamId).None?
  }

  ghost predicate NothingTorn(s: State)
    requires s.versions != []
  {
    && (forall id :: id in s.readers && s.readers[id].Unowned? ==>
          FirstRead(Now(s), s.readers[id].userId, s.readers[id].teamId).None?)
    && (forall id :: id in s.readers && s.readers[id].Queried? ==> !s.readers[id].answer.torn)
    && (forall key :: key in s.entries ==> !s.entries[key].answer.torn)
    && (forall i :: 0 <= i < |s.log| ==> !s.log[i].answer.torn)
  }

  lemma UndisturbedKeeps(delay: int, s: State, a: Action)
    requires s.versions != [] && NothingTorn(s) && Undisturbed(s, a)
    ensures NothingTorn(Apply(delay, s, a))
  {
    hide FirstRead, SecondRead, BuildKey;
  }

  lemma {:induction false} UndisturbedRun(delay: int, s: State, actions: seq<Action>)
    requires s.versions != [] && NothingTorn(s) && Throughout(delay, s, actions, Undisturbed)
    ensures NothingTorn(Run(delay, s, actions))
    decreases actions
  {
    if actions != [] {
      hide Apply, NothingTorn, Undisturbed;
      UndisturbedKeeps(delay, s, actions[0]);
      UndisturbedRun(delay, Apply(delay, s, actions[0]), actions[1..]);
    }
  }

  /** As long as no write settles a lookup between its two reads, every membership returned at `at` was the
      database's answer for that pair at an instant in (at - TTL - delay, at]. */
  lemma UndisturbedReturnsWereTrue(delay: int, clock: int, db: Db, actions: seq<Action>, i: nat)
    requires delay >= 0 && i < |Run(delay, Start(clock, db), actions).log|
    requires Throughout(delay, Start(clock, db), actions, Undisturbed)
    ensures var s := Run(delay, Start(clock, db), actions);
            var r := s.log[i];
            && r.at - TTL - delay < r.answer.asOf <= r.at <= s.clock
            && TrueAt(s.versions, r.answer.asOf, r.userId, r.teamId, r.answer.membership)
  {
    hide Apply, QueryMembership;
    UndisturbedRun(delay, Start(clock, db), actions);
    ReturnedWasTrue(delay, clock, db, actions, i);
  }

  lemma {:induction false} AtomicIsUndisturbed(delay: int, s: State, actions: seq<Action>)
    requires s.versions != [] && Throughout(delay, s, actions, Atomic)
    ensures Throughout(delay, s, actions, Undisturbed)
    decreases actions
  {
    if actions != [] {
      hide Apply;
      AtomicIsUndisturbed(delay, Apply(delay, s, actions[0]), actions[1..]);
    }
  }

  /** With queryMembership as one atomic read, in every interleaving of lookups, writes, invalidations, evictions
      and expiries: a membership returned at `at` was the database's answer at an instant in (at - TTL - delay, at]. */
  lemma AtomicReturnsWereTrue(delay: int, clock: int, db: Db, actions: seq<Action>, i: nat)
    requires delay >= 0 && i < |Run(delay, Start(clock, db), actions).log|
    requires Throughout(delay, Start(clock, db), actions, Atomic)
    ensures var s := Run(delay, Start(clock, db), actions);
            var r := s.log[i];
            && r.at - TTL - delay < r.answer.asOf <= r.at <= s.clock
            && TrueAt(s.versions, r.answer.asOf, r.userId, r.teamId, r.answer.membership)
  {
    hide Apply, Atomic, Undisturbed;
    AtomicIsUndisturbed(delay, Start(clock, db), actions);
    UndisturbedReturnsWereTrue(delay, clock, db, actions, i);
  }

  // ---------- a torn lookup ----------

  const BEFORE: Db := Db(map["t" := "x"], map[("u", "t") := "admin"])
  const AFTER: Db := Db(map["t" := "u"], map[])
  const NOBODY: Membership := Membership("t", "u", "", false)

  lemma TransferAnswers()
    ensures FirstRead(BEFORE, "u", "t") == None && FirstRead(AFTER, "u", "t").Some?
    ensures FirstRead(AFTER, "u", "t").value != SecondRead(AFTER, "u", "t") == NOBODY
    ensures QueryMembership(BEFORE, "u", "t").isMember && QueryMembership(AFTER, "u", "t").isMember
  {
  }

  lemma NobodyNeverAnswered(versions: seq<Version>)
    requires versions == [Version(0, BEFORE), Version(0, AFTER)]
    ensures forall at :: !TrueAt(versions, at, "u", "t", NOBODY)
  {
    TransferAnswers();
    hide QueryMembership;
  }

  const ONE: seq<Version> := [Version(0, BEFORE)]
  const TWO: seq<Version> := [Version(0, BEFORE), Version(0, AFTER)]
  const TORN: Answer := Answer("u", "t", NOBODY, 0, 1, true)

  function Reading(versions: seq<Version>, r: Reader): State {
    State(0, versions, map[], map[0 := r], [])
  }

  /** The states of the torn lookup, one action apart: up to its first read, and the write after it ... */
  lemma TornBegins(delay: nat)
    ensures Apply(delay, Start(0, BEFORE), Get(0, "u", "t", true)) == Reading(ONE, Missed("u", "t"))
    ensures Apply(delay, Reading(ONE, Missed("u", "t")), ReadTeam(0)) == Reading(ONE, Unowned("u", "t"))
    ensures Apply(delay, Reading(ONE, Unowned("u", "t")), Write(AFTER)) == Reading(TWO, Unowned("u", "t"))
  {
    hide FirstRead, SecondRead, QueryMembership, BuildKey;
    TransferAnswers();
  }

  /** ... and from its second read to its return. */
  lemma TornEnds(delay: nat)
    ensures Apply(delay, Reading(TWO, Unowned("u", "t")), ReadPivot(0)) == Reading(TWO, Queried(TORN))
    ensures Apply(delay, Reading(TWO, Queried(TORN)), Finish(0, false))
         == State(0, TWO, map[], map[], [Return("u", "t", TORN, 0)])
  {
    hide FirstRead, SecondRead, QueryMembership, BuildKey;
    TransferAnswers();
  }

  /** A torn answer can be one the database never gave: while ownership passes to a member whose pivot row goes,
      the lookup reads the old teams row and the new pivot table, and finds no member at all. */
  lemma TornAnswerWasNeverTrue(delay: nat)
    ensures var s := Run(delay, Start(0, BEFORE),
                         [Get(0, "u", "t", true)] +
                         ([ReadTeam(0)] + ([Write(AFTER)] + ([ReadPivot(0)] + ([Finish(0, false)] + [])))));
            && s.versions == TWO && s.log == [Return("u", "t", TORN, 0)]
            && forall at :: !TrueAt(s.versions, at, "u", "t", TORN.membership)
  {
    hide Apply, TrueAt;
    TornBegins(delay);
    TornEnds(delay);
    NobodyNeverAnswered(TWO);
    var a4 := [Finish(0, false)] + [];
    RunStep(delay, Reading(TWO, Queried(TORN)), Finish(0, false), []);
    RunStep(delay, Reading(TWO, Unowned("u", "t")), ReadPivot(0), a4);
    RunStep(delay, Reading(ONE, Unowned("u", "t")), Write(AFTER), [ReadPivot(0)] + a4);
    RunStep(delay, Reading(ONE, Missed("u", "t")), ReadTeam(0), [Write(AFTER)] + ([ReadPivot(0)] + a4));
    RunStep(delay, Start(0, BEFORE), Get(0, "u", "t", true), [ReadTeam(0)] + ([Write(AFTER)] + ([ReadPivot(0)] + a4)));
  }
}
