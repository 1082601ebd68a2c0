/** Team membership looked up through a cache in front of the database. */
module TeamMembership {
  import opened Options

  datatype Membership = Membership(teamId: string, userId: string, role: string, isMember: bool)

  /** The two tables the lookup reads: each team's owner, and the role in each (user, team) pivot row. */
  datatype Db = Db(owners: map<string, string>, roles: map<(string, string), string>)

  /** A cached text and its deadline; None is a text that does not unmarshal. */
  datatype Entry = Entry(value: Option<Membership>, deadline: int)

  const TTL: int := 300_000_000_000
  const KEY_PREFIX: string := "team_membership:"

  function BuildKey(userId: string, teamId: string): string {
    KEY_PREFIX + userId + ":" + teamId
  }

  /** The first read, of the teams row; it settles the answer unless the team exists with another owner. */
  function FirstRead(db: Db, userId: string, teamId: string): Option<Membership> {
    if teamId !in db.owners then Some(Membership(teamId, userId, "", false))
    else if db.owners[teamId] == userId then Some(Membership(teamId, userId, "owner", true))
    else None
  }

  /** The second read, of the pivot row. */
  function SecondRead(db: Db, userId: string, teamId: string): Membership {
    if (userId, teamId) in db.roles
    then Membership(teamId, userId, db.roles[(userId, teamId)], true)
    else Membership(teamId, userId, "", false)
  }

  function QueryMembership(db: Db, userId: string, teamId: string): Membership {
    match FirstRead(db, userId, teamId)
    case Some(m) => m
    case None => SecondRead(db, userId, teamId)
  }

  /** What the lookup answers, from the two tables alone: an owner is a member as "owner", any other user is one
      exactly when the team exists and has a pivot row for the user, with that row's role; no one else has a role. */
  lemma MembershipMeaning(db: Db, u: string, t: string)
    ensures var m := QueryMembership(db, u, t);
            var owns := t in db.owners && db.owners[t] == u;
            && m.teamId == t && m.userId == u
            && (m.isMember <==> t in db.owners && (db.owners[t] == u || (u, t) in db.roles))
            && (owns ==> m.role == "owner")
            && (m.isMember && !owns ==> m.role == db.roles[(u, t)])
            && (!m.isMember ==> m.role == "")
  {
  }

  /** The pivot read does not look at the teams row: it answers as the whole lookup would for another owner. */
  lemma PivotMeaning(db: Db, u: string, t: string, other: string)
    requires other != u
    ensures SecondRead(db, u, t) == QueryMembership(Db(map[t := other], db.roles), u, t)
  {
  }

  lemma {:induction false} FirstColon(a: string, b: string, c: string, d: string)
    requires a + ":" + b == c + ":" + d && ':' !in a && ':' !in c
    ensures a == c && b == d
  {
    var s := a + ":" + b;
    assert s[0] == (if a == "" then ':' else a[0]) == (if c == "" then ':' else c[0]);
    assert (a != "" ==> a[0] in a) && (c != "" ==> c[0] in c);
    if a != "" && c != "" {
      assert s[1..] == a[1..] + ":" + b == c[1..] + ":" + d;
      FirstColon(a[1..], b, c[1..], d);
    } else {
      assert s[1..] == b == d;
    }
  }

  function FirstColonAt(u: string): (i: nat)
    requires ':' in u
    ensures i < |u| && u[i] == ':' && ':' !in u[..i]
  {
    if u[0] == ':' then 0
    else
      assert u == [u[0]] + u[1..];
      var i := FirstColonAt(u[1..]);
      assert u[..i + 1] == [u[0]] + u[1..][..i];
      i + 1
  }

  /** Keys of distinct pairs never collide, as long as user ids contain no colon. */
  lemma KeysDistinct(u: string, t: string, u': string, t': string)
    requires ':' !in u && ':' !in u' && BuildKey(u, t) == BuildKey(u', t')
    ensures u == u' && t == t'
  {
    var n := |KEY_PREFIX|;
    assert BuildKey(u, t)[n..] == u + ":" + t;
    assert BuildKey(u', t')[n..] == u' + ":" + t';
    FirstColon(u, t, u', t');
  }

  /** Another pair, whose user id has no colon, has the same key. */
  ghost predicate Shares(u: string, t: string, u': string, t': string) {
    ':' !in u' && (u', t') != (u, t) && BuildKey(u', t') == BuildKey(u, t)
  }

  /** Exactly when a pair shares its key with a pair whose user id has no colon: when its own user id has one. */
  lemma ColonCollides(u: string, t: string)
    ensures (exists u', t' :: Shares(u, t, u', t')) <==> ':' in u
  {
    if ':' in u {
      var i := FirstColonAt(u);
      SplitKey(u, t, i);
      assert |u[..i]| < |u|;
      assert Shares(u, t, u[..i], u[i + 1..] + ":" + t);
    } else {
      forall u', t' ensures !Shares(u, t, u', t') {
        if Shares(u, t, u', t') {
          KeysDistinct(u, t, u', t');
        }
      }
    }
  }

  lemma SplitKey(u: string, t: string, i: nat)
    requires i < |u| && u[i] == ':'
    ensures BuildKey(u[..i], u[i + 1..] + ":" + t) == BuildKey(u, t)
  {
    assert u[..i] + ":" + (u[i + 1..] + ":" + t) == (u[..i] + ":" + u[i + 1..]) + ":" + t;
    assert u == u[..i] + ":" + u[i + 1..];
    assert KEY_PREFIX + u[..i] + ":" + (u[i + 1..] + ":" + t) == KEY_PREFIX + (u[..i] + ":" + (u[i + 1..] + ":" + t));
    assert KEY_PREFIX + u + ":" + t == KEY_PREFIX + (u + ":" + t);
  }

  // ---------- one process, atomic lookups ----------

  /** Every readable entry agrees with the database. */
  ghost predicate Coherent(entries: map<string, Entry>, db: Db) {
    forall u, t :: ':' !in u && BuildKey(u, t) in entries && entries[BuildKey(u, t)].value.Some? ==>
      entries[BuildKey(u, t)].value.value == QueryMembership(db, u, t)
  }

  /** The cache answers for the key: an entry before its deadline, served, and well formed. */
  ghost predicate Readable(entries: map<string, Entry>, key: string, now: int, served: bool) {
    key in entries && served && now < entries[key].deadline && entries[key].value.Some?
  }

  class TeamMembershipCache {
    var entries: map<string, Entry>
    var db: Db

    constructor (db: Db)
      ensures this.db == db && entries == map[] && Coherent(entries, db)
    {
      this.db, entries := db, map[];
    }

    /** Looks up one membership. `served` is false when the store errs or has evicted the entry, `dbOk` when a
        query fails, `stored` when the Set fails; the result is None for a database error. */
    method GetMembership(userId: string, teamId: string, now: int, served: bool, dbOk: bool, stored: bool)
      returns (membership: Option<Membership>)
      modifies `entries
      ensures Readable(old(entries), BuildKey(userId, teamId), now, served) ==>
                membership == old(entries)[BuildKey(userId, teamId)].value && entries == old(entries)
      ensures !Readable(old(entries), BuildKey(userId, teamId), now, served) && !dbOk ==>
                membership == None && entries == old(entries)
      ensures !Readable(old(entries), BuildKey(userId, teamId), now, served) && dbOk ==>
                var m := QueryMembership(db, userId, teamId);
                && membership == Some(m)
                && entries == if stored
                              then old(entries)[BuildKey(userId, teamId) := Entry(Some(m), now + TTL)]
                              else old(entries)
      ensures ':' !in userId && old(Coherent(entries, db)) ==>
                && Coherent(entries, db)
                && (membership.Some? ==> membership.value == QueryMembership(db, userId, teamId))
    {
      var key := BuildKey(userId, teamId);
      if key in entries && served && now < entries[key].deadline && entries[key].value.Some? {
        return entries[key].value;
      }
      if !dbOk {
        return None;
      }
      var m := QueryMembership(db, userId, teamId);
      if stored {
        if ':' !in userId {
          forall u, t | ':' !in u && BuildKey(u, t) == key ensures u == userId && t == teamId {
            KeysDistinct(u, t, userId, teamId);
          }
        }
        entries := entries[key := Entry(Some(m), now + TTL)];
      }
      return Some(m);
    }

    method InvalidateMembership(userId: string, teamId: string)
      modifies `entries
      ensures entries == old(entries) - {BuildKey(userId, teamId)}
    {
      entries := entries - {BuildKey(userId, teamId)};
    }

    /** A write followed by the invalidation of every pair whose membership it changes keeps lookups exact. */
    method WriteAndInvalidate(after: Db, pairs: seq<(string, string)>)
      requires Coherent(entries, db)
      requires forall u, t :: (u, t) !in pairs ==> QueryMembership(after, u, t) == QueryMembership(db, u, t)
      modifies this
      ensures db == after && Coherent(entries, after)
    {
      ghost var before := entries;
      db := after;
      for i := 0 to |pairs|
        invariant db == after
        invariant forall k :: k in entries ==> k in before && entries[k] == before[k]
        invariant forall p :: p in pairs[..i] ==> BuildKey(p.0, p.1) !in entries
      {
        assert pairs[..i + 1] == pairs[..i] + [pairs[i]];
        InvalidateMembership(pairs[i].0, pairs[i].1);
      }
      assert pairs[..|pairs|] == pairs;
      assert forall u, t :: (u, t) in pairs ==> BuildKey((u, t).0, (u, t).1) !in entries;
    }
  }
}
