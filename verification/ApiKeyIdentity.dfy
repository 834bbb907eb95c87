/**
 * Resolving API keys to identities (src/lib/api-key-identity.ts): a batch reads teams, memberships and
 * users with one query each, yet every key gets the identity it would get alone. Ids are text columns
 * and hold no NUL character.
 */
module ApiKeyIdentity {
  import opened Lookup
  import opened Outcomes

  datatype KeyRow = KeyRow(id: string, userId: string, teamId: Option<string>, revokedAt: Option<int>,
      expiresAt: Option<int>)

  datatype UserInfo = UserInfo(plan: string, subscriptionStatus: Option<string>, businessRoles: seq<string>)

  datatype Membership = Membership(role: string, businessRoles: seq<string>)

  /** Teams with their owner, memberships by team and holder, users. */
  datatype Tables = Tables(
    teams: seq<(string, string)>, members: seq<((string, string), Membership)>, users: seq<(string, UserInfo)>)

  datatype Flaw = NotFound | Revoked(at: int) | Expired(at: int) | OrphanKey | TeamNotFound | MembershipRevoked

  datatype Identity = Identity(
    apiKeyId: string, userId: string, tenantId: string, teamId: Option<string>, quotaOwnerId: string,
    role: string, businessRoles: seq<string>, plan: string, subscriptionStatus: Option<string>)

  const SOLO_TENANT_ROLE := "owner"

  /** A null or empty team id is no team. */
  predicate HasTeam(k: KeyRow) { k.teamId.Some? && k.teamId.value != "" }

  // ---------------------------------------------------------------- the composite key

  const NUL := '\0'

  function Join(team: string, user: string): string { team + [NUL] + user }

  /** Without the separator in the team id, the first separator of the composite key ends the team id. */
  lemma FirstSeparator(t: string, u: string)
    requires NUL !in t
    ensures Join(t, u)[|t|] == NUL && forall i :: 0 <= i < |t| ==> Join(t, u)[i] != NUL
    ensures t == Join(t, u)[..|t|] && u == Join(t, u)[|t| + 1..]
  {
    assert forall i :: 0 <= i < |t| ==> Join(t, u)[i] == t[i] && t[i] in t;
  }

  lemma JoinInjective(t: string, u: string, t': string, u': string)
    requires NUL !in t && NUL !in t'
    ensures Join(t, u) == Join(t', u') <==> t == t' && u == u'
  {
    FirstSeparator(t, u);
    FirstSeparator(t', u');
    if Join(t, u) == Join(t', u') {
      assert Join(t, u)[|t|] == Join(t', u')[|t|];
      assert Join(t, u)[|t'|] == Join(t', u')[|t'|];
    }
  }

  /** A pair shares its composite key with another pair exactly when one of its ids holds the separator. */
  lemma JoinCollidesExactly(t: string, u: string)
    ensures (exists t', u' :: (t', u') != (t, u) && Join(t', u') == Join(t, u)) <==> NUL in t || NUL in u
  {
    if NUL in t {
      var i :| 0 <= i < |t| && t[i] == NUL;
      assert t == t[..i] + [NUL] + t[i + 1..];
      assert Join(t[..i], t[i + 1..] + [NUL] + u) == Join(t, u);
      assert (t[..i], t[i + 1..] + [NUL] + u) != (t, u);
    } else if NUL in u {
      var i :| 0 <= i < |u| && u[i] == NUL;
      assert u == u[..i] + [NUL] + u[i + 1..];
      assert Join(t + [NUL] + u[..i], u[i + 1..]) == Join(t, u);
      assert (t + [NUL] + u[..i], u[i + 1..]) != (t, u);
    } else {
      forall t', u' | Join(t', u') == Join(t, u) ensures (t', u') == (t, u) {
        SplitOnce(t', u', t, u);
      }
    }
  }

  lemma SplitOnce(t': string, u': string, t: string, u: string)
    requires Join(t', u') == Join(t, u) && NUL !in t && NUL !in u
    ensures t' == t && u' == u
  {
    FirstSeparator(t, u);
    assert Join(t', u')[|t'|] == NUL;
    assert forall i :: |t| < i < |Join(t, u)| ==> Join(t, u)[i] == u[i - |t| - 1] && u[i - |t| - 1] in u;
    assert |t'| == |t|;
    assert t' == Join(t', u')[..|t'|] && u' == Join(t', u')[|t'| + 1..];
  }

  // ---------------------------------------------------------------- one key at a time

  function Solo(k: KeyRow, holder: UserInfo): Identity {
    Identity(k.id, k.userId, k.userId, None, k.userId, SOLO_TENANT_ROLE, holder.businessRoles,
             holder.plan, holder.subscriptionStatus)
  }

  function OfTeam(k: KeyRow, team: string, ownerId: string, m: Membership, owner: UserInfo): Identity {
    Identity(k.id, k.userId, team, Some(team), ownerId, m.role, m.businessRoles, owner.plan, owner.subscriptionStatus)
  }

  /** The identity of one key, read straight from the tables. */
  function Alone(k: KeyRow, db: Tables, now: int): Result<Identity, Flaw> {
    if k.revokedAt.Some? then Err(Revoked(k.revokedAt.value))
    else if k.expiresAt.Some? && k.expiresAt.value < now then Err(Expired(k.expiresAt.value))
    else
      var holder := Find(db.users, k.userId);
      if holder.None? then Err(OrphanKey)
      else if !HasTeam(k) then Ok(Solo(k, holder.value))
      else
        var team := k.teamId.value;
        var owner := Find(db.teams, team);
        var member := Find(db.members, (team, k.userId));
        if owner.None? then Err(TeamNotFound)
        else if member.None? then Err(MembershipRevoked)
        else if Find(db.users, owner.value).None? then Err(OrphanKey)
        else Ok(OfTeam(k, team, owner.value, member.value, Find(db.users, owner.value).value))
  }

  // ---------------------------------------------------------------- a batch

  function IdentityOf(k: KeyRow, teamById: map<string, string>, membershipByKey: map<string, Membership>,
                      userById: map<string, UserInfo>): Result<Identity, Flaw>
  {
    if k.userId !in userById then Err(OrphanKey)
    else if !HasTeam(k) then Ok(Solo(k, userById[k.userId]))
    else if k.teamId.value !in teamById then Err(TeamNotFound)
    else if Join(k.teamId.value, k.userId) !in membershipByKey then Err(MembershipRevoked)
    else if teamById[k.teamId.value] !in userById then Err(OrphanKey)
    else
      Ok(OfTeam(k, k.teamId.value, teamById[k.teamId.value], membershipByKey[Join(k.teamId.value, k.userId)],
                userById[teamById[k.teamId.value]]))
  }

  /** Primary and unique keys, and no NUL in a team id. */
  ghost predicate WellKept(db: Tables) {
    && UniqueKeys(db.teams) && UniqueKeys(db.members) && UniqueKeys(db.users)
    && (forall i :: 0 <= i < |db.members| ==> NUL !in db.members[i].0.0)
  }

  /** Key rows from the table: an id names one row, and team ids hold no NUL. */
  ghost predicate FromTable(keys: seq<KeyRow>) {
    && (forall a, b :: a in keys && b in keys && a.id == b.id ==> a == b)
    && (forall k :: k in keys && k.teamId.Some? ==> NUL !in k.teamId.value)
  }

  function Joined(rows: seq<((string, string), Membership)>): (r: seq<(string, Membership)>)
    ensures |r| == |rows| && forall i :: 0 <= i < |rows| ==> r[i] == (Join(rows[i].0.0, rows[i].0.1), rows[i].1)
  {
    seq(|rows|, i requires 0 <= i < |rows| => (Join(rows[i].0.0, rows[i].0.1), rows[i].1))
  }

  lemma JoinedUnique(rows: seq<((string, string), Membership)>)
    requires UniqueKeys(rows) && forall i :: 0 <= i < |rows| ==> NUL !in rows[i].0.0
    ensures UniqueKeys(Joined(rows))
  {
    forall i, j | 0 <= i < j < |rows| ensures Joined(rows)[i].0 != Joined(rows)[j].0 {
      JoinInjective(rows[i].0.0, rows[i].0.1, rows[j].0.0, rows[j].0.1);
    }
  }

  /** Looking up the joined key is looking up the pair. */
  lemma {:induction false} FindJoined(rows: seq<((string, string), Membership)>, team: string, user: string)
    requires NUL !in team && forall i :: 0 <= i < |rows| ==> NUL !in rows[i].0.0
    ensures Find(Joined(rows), Join(team, user)) == Find(rows, (team, user))
  {
    if rows != [] {
      JoinInjective(rows[0].0.0, rows[0].0.1, team, user);
      assert Joined(rows)[1..] == Joined(rows[1..]);
      FindJoined(rows[1..], team, user);
    }
  }

  /** The three maps answer for `k` what the tables do. */
  ghost predicate Answers(db: Tables, k: KeyRow, teamById: map<string, string>,
                          membershipByKey: map<string, Membership>, userById: map<string, UserInfo>)
  {
    && At(userById, k.userId) == Find(db.users, k.userId)
    && (HasTeam(k) ==>
          && At(teamById, k.teamId.value) == Find(db.teams, k.teamId.value)
          && At(membershipByKey, Join(k.teamId.value, k.userId)) == Find(db.members, (k.teamId.value, k.userId))
          && (k.teamId.value in teamById ==>
                At(userById, teamById[k.teamId.value]) == Find(db.users, teamById[k.teamId.value])))
  }

  lemma BatchIsAlone(db: Tables, k: KeyRow, now: int, teamById: map<string, string>,
                     membershipByKey: map<string, Membership>, userById: map<string, UserInfo>)
    requires k.revokedAt.None? && !(k.expiresAt.Some? && k.expiresAt.value < now)
    requires Answers(db, k, teamById, membershipByKey, userById)
    ensures IdentityOf(k, teamById, membershipByKey, userById) == Alone(k, db, now)
  {
  }

  method QueryMembers(db: Tables, teamIds: set<string>, holderIds: set<string>)
    returns (membershipByKey: map<string, Membership>)
    requires WellKept(db)
    ensures forall team, user :: team in teamIds && user in holderIds && NUL !in team ==>
              At(membershipByKey, Join(team, user)) == Find(db.members, (team, user))
  {
    var mine := (key: (string, string)) => key.0 in teamIds && key.1 in holderIds;
    var rows := Where(db.members, mine);
    WhereUnique(db.members, mine);
    WhereMembers(db.members, mine);
    forall i | 0 <= i < |rows| ensures NUL !in rows[i].0.0 {
      var j :| 0 <= j < |db.members| && db.members[j] == rows[i];
    }
    JoinedUnique(rows);
    membershipByKey := Index(Joined(rows));
    forall team, user | team in teamIds && user in holderIds && NUL !in team
      ensures At(membershipByKey, Join(team, user)) == Find(db.members, (team, user))
    {
      FindJoined(rows, team, user);
      FindWhere(db.members, mine, (team, user));
    }
  }

  /** The teams asked for, and the ids of their owners. */
  method QueryTeams(db: Tables, teamIds: set<string>) returns (teamById: map<string, string>, ownerIds: set<string>)
    requires WellKept(db)
    ensures forall id :: id in teamIds ==> At(teamById, id) == Find(db.teams, id)
    ensures forall id :: id in teamById ==> teamById[id] in ownerIds
  {
    var mine := (id: string) => id in teamIds;
    var rows := Where(db.teams, mine);
    WhereUnique(db.teams, mine);
    teamById := Index(rows);
    ownerIds := set r | r in rows :: r.1;
    forall id ensures At(teamById, id) == (if id in teamIds then Find(db.teams, id) else None)
                      && (id in teamById ==> teamById[id] in ownerIds)
    {
      FindWhere(db.teams, mine, id);
      FindIn(rows, id);
    }
  }

  method QueryUsers(db: Tables, userIds: set<string>) returns (userById: map<string, UserInfo>)
    requires WellKept(db)
    ensures forall id :: id in userIds ==> At(userById, id) == Find(db.users, id)
  {
    var mine := (id: string) => id in userIds;
    WhereUnique(db.users, mine);
    userById := Index(Where(db.users, mine));
    forall id | id in userIds ensures At(userById, id) == Find(db.users, id) {
      FindWhere(db.users, mine, id);
    }
  }

  /** The three queries of the batch, each for the ids that occur in it. */
  method ReadTables(live: seq<KeyRow>, db: Tables)
    returns (teamById: map<string, string>, membershipByKey: map<string, Membership>, userById: map<string, UserInfo>)
    requires WellKept(db) && forall k :: k in live && k.teamId.Some? ==> NUL !in k.teamId.value
    ensures forall k :: k in live ==> Answers(db, k, teamById, membershipByKey, userById)
  {
    var teamIds := set k | k in live && HasTeam(k) :: k.teamId.value;
    var holderIds := set k | k in live :: k.userId;
    var ownerIds := {};
    teamById, membershipByKey := map[], map[];
    if teamIds != {} {
      teamById, ownerIds := QueryTeams(db, teamIds);
      membershipByKey := QueryMembers(db, teamIds, holderIds);
    }
    userById := QueryUsers(db, holderIds + ownerIds);
    forall k | k in live ensures Answers(db, k, teamById, membershipByKey, userById) {
      assert k.userId in holderIds;
      if HasTeam(k) {
        assert k.teamId.value in teamIds;
      }
    }
  }

  /** Keys that are neither revoked nor expired. */
  predicate Live(k: KeyRow, now: int) { k.revokedAt.None? && !(k.expiresAt.Some? && k.expiresAt.value < now) }

  /** The first pass: flaws of the keys themselves, without the database. */
  method CutDead(keys: seq<KeyRow>, db: Tables, now: int)
    returns (out: map<string, Result<Identity, Flaw>>, live: seq<KeyRow>)
    ensures forall k :: k in live <==> k in keys && Live(k, now)
    ensures forall id :: id in out <==> exists k :: k in keys && k.id == id && !Live(k, now)
    ensures FromTable(keys) ==> forall k :: k in keys && !Live(k, now) ==> out[k.id] == Alone(k, db, now)
  {
    out, live := map[], [];
    for i := 0 to |keys|
      invariant forall k :: k in live <==> k in keys[..i] && Live(k, now)
      invariant forall id :: id in out <==> exists k :: k in keys[..i] && k.id == id && !Live(k, now)
      invariant FromTable(keys) ==> forall k :: k in keys[..i] && !Live(k, now) ==> out[k.id] == Alone(k, db, now)
    {
      var k := keys[i];
      assert keys[..i + 1] == keys[..i] + [k];
      if k.revokedAt.Some? {
        out := out[k.id := Err(Revoked(k.revokedAt.value))];
      } else if k.expiresAt.Some? && k.expiresAt.value < now {
        out := out[k.id := Err(Expired(k.expiresAt.value))];
      } else {
        live := live + [k];
      }
    }
    assert keys[..|keys|] == keys;
  }

  /**
   * Every key of the batch has an entry and no other id has one; the entry is the identity the key gets
   * alone, whatever else is in the batch.
   */
  method ResolveApiKeyIdentities(keys: seq<KeyRow>, db: Tables, now: int)
    returns (out: map<string, Result<Identity, Flaw>>)
    requires WellKept(db) && FromTable(keys)
    ensures forall id :: id in out <==> exists k :: k in keys && k.id == id
    ensures forall k :: k in keys ==> out[k.id] == Alone(k, db, now)
  {
    var live;
    out, live := CutDead(keys, db, now);
    if live == [] {
      assert forall k :: k in keys ==> !Live(k, now);
      return;
    }
    var teamById, membershipByKey, userById := ReadTables(live, db);
    ghost var cut := out;
    for i := 0 to |live|
      invariant forall id :: id in out <==> id in cut || exists k :: k in live[..i] && k.id == id
      invariant forall k :: k in keys && (!Live(k, now) || k in live[..i]) ==> out[k.id] == Alone(k, db, now)
    {
      var k := live[i];
      assert live[..i + 1] == live[..i] + [k];
      BatchIsAlone(db, k, now, teamById, membershipByKey, userById);
      out := out[k.id := IdentityOf(k, teamById, membershipByKey, userById)];
    }
    assert live[..|live|] == live;
  }

  /** Resolving one key by its hash is a batch of one. */
  method ResolveApiKeyIdentity(keyTable: seq<(string, KeyRow)>, keyHash: string, db: Tables, now: int)
    returns (r: Result<Identity, Flaw>)
    requires WellKept(db)
    requires forall i :: 0 <= i < |keyTable| && keyTable[i].1.teamId.Some? ==> NUL !in keyTable[i].1.teamId.value
    ensures r == match Find(keyTable, keyHash) case None => Err(NotFound) case Some(k) => Alone(k, db, now)
  {
    var key := Find(keyTable, keyHash);
    if key.None? {
      return Err(NotFound);
    }
    FindIn(keyTable, keyHash);
    var identities := ResolveApiKeyIdentities([key.value], db, now);
    assert key.value in [key.value];
    r := identities[key.value.id];
  }

  // ---------------------------------------------------------------- whose plan, role and quota

  lemma FindRow<K, V>(rows: seq<(K, V)>, k: K, v: V)
    requires UniqueKeys(rows) && (k, v) in rows
    ensures Find(rows, k) == Some(v)
  {
    var i :| 0 <= i < |rows| && rows[i] == (k, v);
    FindUnique(rows, i);
  }

  ghost predicate HasRow<K(!new), V(!new)>(rows: seq<(K, V)>, k: K) { exists v :: (k, v) in rows }

  lemma FindTells<K(!new), V(!new)>(rows: seq<(K, V)>, k: K)
    ensures Find(rows, k).Some? <==> HasRow(rows, k)
  {
    FindIn(rows, k);
    if Find(rows, k).Some? {
      var i :| 0 <= i < |rows| && rows[i] == (k, Find(rows, k).value);
      assert (k, Find(rows, k).value) in rows;
    }
    if HasRow(rows, k) {
      var v :| (k, v) in rows;
      var i :| 0 <= i < |rows| && rows[i] == (k, v);
    }
  }

  /** A personal key acts for its holder: the holder's tenant, quota, plan and business roles, as owner. */
  lemma PersonalKey(k: KeyRow, db: Tables, now: int, holder: UserInfo)
    requires WellKept(db) && Live(k, now) && (k.teamId == None || k.teamId == Some(""))
    requires (k.userId, holder) in db.users
    ensures Alone(k, db, now).Ok?
    ensures var id := Alone(k, db, now).value;
            && id.apiKeyId == k.id && id.userId == k.userId && id.tenantId == k.userId && id.teamId == None
            && id.quotaOwnerId == k.userId && id.role == "owner" && id.businessRoles == holder.businessRoles
            && id.plan == holder.plan && id.subscriptionStatus == holder.subscriptionStatus
  {
    FindRow(db.users, k.userId, holder);
  }

  /** A team key acts for its team: the holder's role and business roles there, on the plan and quota of the owner. */
  lemma TeamKey(k: KeyRow, db: Tables, now: int, team: string, ownerId: string, holder: UserInfo, owner: UserInfo,
                membership: Membership)
    requires WellKept(db) && Live(k, now) && k.teamId == Some(team) && |team| > 0
    requires (k.userId, holder) in db.users && (team, ownerId) in db.teams && (ownerId, owner) in db.users
    requires ((team, k.userId), membership) in db.members
    ensures Alone(k, db, now).Ok?
    ensures var id := Alone(k, db, now).value;
            && id.apiKeyId == k.id && id.userId == k.userId && id.tenantId == team && id.teamId == Some(team)
            && id.quotaOwnerId == ownerId && id.role == membership.role
            && id.businessRoles == membership.businessRoles
            && id.plan == owner.plan && id.subscriptionStatus == owner.subscriptionStatus
  {
    FindRow(db.users, k.userId, holder);
    FindRow(db.teams, team, ownerId);
    FindRow(db.users, ownerId, owner);
    FindRow(db.members, (team, k.userId), membership);
  }

  /** The team's row names an owner who is a user. */
  ghost predicate OwnerExists(db: Tables, team: string) {
    exists owner :: (team, owner) in db.teams && HasRow(db.users, owner)
  }

  lemma OwnerFound(db: Tables, team: string)
    requires UniqueKeys(db.teams)
    ensures OwnerExists(db, team)
       <==> Find(db.teams, team).Some? && Find(db.users, Find(db.teams, team).value).Some?
  {
    FindTells(db.teams, team);
    if OwnerExists(db, team) {
      var owner :| (team, owner) in db.teams && HasRow(db.users, owner);
      FindRow(db.teams, team, owner);
      FindTells(db.users, owner);
    }
    if Find(db.teams, team).Some? {
      FindIn(db.teams, team);
      FindTells(db.users, Find(db.teams, team).value);
    }
  }

  /** Why a key has no identity: itself, then its holder, its team, its membership and the team's owner. */
  lemma FlawsExactly(k: KeyRow, db: Tables, now: int)
    requires WellKept(db)
    ensures var r := Alone(k, db, now);
            var team := if k.teamId.Some? then k.teamId.value else "";
            var holder, membership := HasRow(db.users, k.userId), HasRow(db.members, (team, k.userId));
            && (k.revokedAt.Some? ==> r == Err(Revoked(k.revokedAt.value)))
            && (k.revokedAt.None? && k.expiresAt.Some? && k.expiresAt.value < now
                ==> r == Err(Expired(k.expiresAt.value)))
            && (Live(k, now) && !holder ==> r == Err(OrphanKey))
            && (Live(k, now) && holder && |team| > 0 && !HasRow(db.teams, team) ==> r == Err(TeamNotFound))
            && (Live(k, now) && holder && |team| > 0 && HasRow(db.teams, team) && !membership
                ==> r == Err(MembershipRevoked))
            && (Live(k, now) && holder && |team| > 0 && HasRow(db.teams, team) && membership
                ==> if OwnerExists(db, team) then r.Ok? else r == Err(OrphanKey))
            && (Live(k, now) && holder && |team| == 0 ==> r.Ok?)
  {
    var team := if k.teamId.Some? then k.teamId.value else "";
    FindTells(db.users, k.userId);
    FindTells(db.teams, team);
    FindTells(db.members, (team, k.userId));
    OwnerFound(db, team);
  }
}
