/**
 * The team handlers: create, add and remove members, change a member's
 * role, rename, delete, unlink files, and the name-search partition.
 *
 * Four handlers cannot reach their success path as written (a reassigned
 * `const`, `.some` on a query result, a populate through a schema ref that
 * names no registered model). Each is modelled as written, and next to it a
 * method named `...Intended` states and proves what the handler evidently
 * means to do.
 */
module TeamController {
  import opened Schema
  import opened Lists
  import opened AccessList
  import opened Membership
  import opened Database

  // ------------------------------------------------------------ member ids

  predicate Distinct(ids: seq<UserId>) {
    forall i, j :: 0 <= i < j < |ids| ==> ids[i] != ids[j]
  }

  /**
   * The member check `(await User.find({_id: {$in: ids}})).length === ids.length`:
   * the number of distinct stored users among the ids equals the number of ids.
   */
  predicate AllFound(ids: seq<UserId>, users: map<UserId, User>) {
    |Found(ids, users)| == |ids|
  }

  /** The distinct ids of a list. */
  function Elements(ids: seq<UserId>): (r: set<UserId>)
    ensures forall x :: x in r <==> x in ids
    decreases |ids|
  {
    if ids == [] then {} else {ids[0]} + Elements(ids[1..])
  }

  /** The ids of a list that name stored users: what the query returns. */
  function Found(ids: seq<UserId>, users: map<UserId, User>): (r: set<UserId>)
    ensures forall x :: x in r <==> x in ids && x in users
  {
    Elements(ids) * users.Keys
  }

  /** A list has at least as many entries as distinct ids, and exactly as many when no id repeats. */
  lemma {:induction false} ElementsCount(ids: seq<UserId>)
    ensures |Elements(ids)| <= |ids|
    ensures |Elements(ids)| == |ids| <==> Distinct(ids)
    decreases |ids|
  {
    if ids != [] {
      var tail := ids[1..];
      ElementsCount(tail);
      if ids[0] in tail {
        assert Elements(ids) == Elements(tail);
        var j :| 0 <= j < |tail| && tail[j] == ids[0];
        assert ids[j + 1] == ids[0];
      } else {
        assert ids[0] !in Elements(tail);
        assert |Elements(ids)| == |Elements(tail)| + 1;
        DistinctCons(ids);
      }
    }
  }

  lemma DistinctCons(ids: seq<UserId>)
    requires ids != [] && ids[0] !in ids[1..]
    ensures Distinct(ids) <==> Distinct(ids[1..])
  {
    var tail := ids[1..];
    if Distinct(tail) {
      forall i, j | 0 <= i < j < |ids| ensures ids[i] != ids[j] {
        assert ids[j] == tail[j - 1];
        if i > 0 { assert ids[i] == tail[i - 1]; }
      }
    }
    if Distinct(ids) {
      forall i, j | 0 <= i < j < |tail| ensures tail[i] != tail[j] {
        assert tail[i] == ids[i + 1] && tail[j] == ids[j + 1];
      }
    }
  }

  /** The count check passes exactly when every id is a stored user and no id repeats. */
  lemma AllFoundMeans(ids: seq<UserId>, users: map<UserId, User>)
    ensures AllFound(ids, users) <==> (forall i :: 0 <= i < |ids| ==> ids[i] in users) && Distinct(ids)
  {
    var s, f := Elements(ids), Found(ids, users);
    ElementsCount(ids);
    assert s == f + (s - f) && f * (s - f) == {};
    assert |s| == |f| + |s - f|;
    if AllFound(ids, users) {
      assert s - f == {};
      forall i | 0 <= i < |ids| ensures ids[i] in users {
        assert ids[i] in s;
      }
    }
    if forall i :: 0 <= i < |ids| ==> ids[i] in users {
      assert s - f == {};
    }
  }

  // ------------------------------------------------------------ createTeam

  /** createTeam: an empty member list is replaced by the caller alone. */
  function RequestedIds(members: seq<UserId>, u: UserId): seq<UserId> {
    if |members| == 0 then [u] else members
  }

  /**
   * createTeam as written. After the name and member checks it reassigns the
   * `const members`, which throws; a missing member list throws earlier at
   * `members.push`. No team is ever stored.
   */
  method CreateTeam(db: Db, actor: Actor, name: Option<string>, logo: Option<string>,
                    members: Option<seq<UserId>>)
    returns (status: int)
    ensures status == 400 || status == 500
    ensures !Truthy(name) ==> status == 400
    ensures Truthy(name) && members.None? ==> status == 500
    ensures Truthy(name) && members.Some? ==>
      (status == 400 <==> !AllFound(RequestedIds(members.value, actor.id), db.users))
  {
    if !Truthy(name) {
      return 400;
    }
    if members.None? {
      return 500;
    }
    if !AllFound(RequestedIds(members.value, actor.id), db.users) {
      return 400;
    }
    return 500;
  }

  /**
   * The member list createTeam means to build: the caller as admin, every
   * other requested member with the lowest team role, and the caller
   * appended as admin when not requested.
   */
  function IntendedMembers(ids: seq<UserId>, u: UserId): (r: seq<TeamMembership>)
    ensures |r| == |ids| + (if u in ids then 0 else 1)
    ensures forall i :: 0 <= i < |ids| ==> r[i].member == ids[i]
    ensures forall i :: 0 <= i < |r| ==> (r[i].role == TeamAdmin <==> r[i].member == u)
    ensures RoleOf(r, u) == Some(TeamAdmin)
    ensures forall v :: v in ids ==> IsMember(r, v)
  {
    var mapped := seq(|ids|, i requires 0 <= i < |ids| =>
      TeamMembership(ids[i], if ids[i] == u then TeamAdmin else TeamMember));
    var r := if u in ids then mapped else mapped + [TeamMembership(u, TeamAdmin)];
    assert forall v :: v in ids ==> IsMember(r, v) by {
      forall v | v in ids ensures IsMember(r, v) {
        var i :| 0 <= i < |ids| && ids[i] == v;
        assert r[i].member == v;
      }
    }
    assert IsMember(r, u) by {
      if u in ids {
        var i :| 0 <= i < |ids| && ids[i] == u;
        assert r[i].member == u;
      } else {
        assert r[|ids|].member == u;
      }
    }
    r
  }

  /** createTeam as evidently intended: the team is stored with IntendedMembers and no files. */
  method CreateTeamIntended(db: Db, actor: Actor, name: Option<string>, logo: Option<string>,
                            members: Option<seq<UserId>>)
    returns (status: int, id: TeamId)
    requires db.Valid()
    modifies db
    ensures db.Valid()
    ensures db.users == old(db.users) && db.files == old(db.files)
    ensures status == 400 || status == 201
    ensures var ids := RequestedIds(members.GetOr([]), actor.id);
      status == 201 <==> Truthy(name) && AllFound(ids, old(db.users))
    ensures status == 201 ==>
      id == old(db.nextId) && id !in old(db.teams) &&
      db.teams == old(db.teams)[id := Team(name, logo,
        IntendedMembers(RequestedIds(members.GetOr([]), actor.id), actor.id), [])]
    ensures status == 201 ==> RoleOf(db.teams[id].members, actor.id) == Some(TeamAdmin)
    ensures status != 201 ==> db.teams == old(db.teams)
  {
    id := 0;
    if !Truthy(name) {
      return 400, id;
    }
    var ids := RequestedIds(members.GetOr([]), actor.id);
    if !AllFound(ids, db.users) {
      return 400, id;
    }
    id := db.InsertTeam(Team(name, logo, IntendedMembers(ids, actor.id), []));
    status := 201;
  }

  // ------------------------------------------------------------ add members

  /**
   * addMembersToTeam as written. Once the team is found, the admin check
   * calls `.some` on the document that `findById(...).select('members')`
   * returns, which is not an array, and throws.
   */
  method AddMembersToTeam(db: Db, actor: Actor, teamId: TeamId, members: Option<seq<UserId>>)
    returns (status: int)
    ensures status == 400 || status == 404 || status == 500
    ensures status == 400 <==> members.None? || |members.value| == 0
    ensures status == 404 <==> members.Some? && |members.value| > 0 && teamId !in db.teams
  {
    if members.None? || |members.value| == 0 {
      return 400;
    }
    if teamId !in db.teams {
      return 404;
    }
    return 500;
  }

  /** `if (!user.teams.includes(t)) user.teams.push(t)`. */
  function AddOnce(teams: seq<TeamId>, t: TeamId): (r: seq<TeamId>)
    ensures t in r
    ensures |teams| <= |r| <= |teams| + 1 && r[..|teams|] == teams
    ensures t in teams ==> r == teams
  {
    if t in teams then teams else teams + [t]
  }

  function NewMemberships(ids: seq<UserId>, role: TeamRole): (r: seq<TeamMembership>)
    ensures |r| == |ids|
    ensures forall i :: 0 <= i < |ids| ==> r[i] == TeamMembership(ids[i], role)
  {
    seq(|ids|, i requires 0 <= i < |ids| => TeamMembership(ids[i], role))
  }

  /** Some requested id already has a record in the team. */
  predicate AnyAlreadyMember(members: seq<TeamMembership>, ids: seq<UserId>) {
    exists i :: 0 <= i < |ids| && IsMember(members, ids[i])
  }

  /**
   * addMembersToTeam as evidently intended: admin check on the team's own
   * members, the new members appended with the team's lowest role
   * ('member'; the 'viewer' the handler writes is outside the team enum), and
   * the team id added once to each added user's `teams`.
   */
  method AddMembersIntended(db: Db, actor: Actor, teamId: TeamId, members: Option<seq<UserId>>)
    returns (status: int)
    requires db.Valid()
    modifies db
    ensures db.Valid()
    ensures db.files == old(db.files) && db.nextId == old(db.nextId)
    ensures status in {400, 401, 404, 200}
    ensures members.None? || |members.value| == 0 ==> status == 400
    ensures members.Some? && |members.value| > 0 ==>
      (teamId !in old(db.teams) ==> status == 404) &&
      (teamId in old(db.teams) ==>
        var team := old(db.teams)[teamId];
        (!IsAdmin(team.members, actor.id) ==> status == 401) &&
        (IsAdmin(team.members, actor.id) ==>
          (status == 200 <==>
            AllFound(members.value, old(db.users)) && !AnyAlreadyMember(team.members, members.value)) &&
          (status == 400 <==>
            !AllFound(members.value, old(db.users)) || AnyAlreadyMember(team.members, members.value))))
    ensures status == 200 ==>
      var ids, team := members.value, old(db.teams)[teamId];
      db.teams == old(db.teams)[teamId := team.(members := team.members + NewMemberships(ids, TeamMember))] &&
      db.users.Keys == old(db.users).Keys &&
      (forall k :: k in ids ==>
        k in db.users && db.users[k] == old(db.users)[k].(teams := AddOnce(old(db.users)[k].teams, teamId))) &&
      (forall k :: k in old(db.users) && k !in ids ==> db.users[k] == old(db.users)[k])
    ensures status != 200 ==> db.teams == old(db.teams) && db.users == old(db.users)
  {
    if members.None? || |members.value| == 0 {
      return 400;
    }
    if teamId !in db.teams {
      return 404;
    }
    var team := db.teams[teamId];
    if !IsAdmin(team.members, actor.id) {
      return 401;
    }
    var ids := members.value;
    if !AllFound(ids, db.users) {
      return 400;
    }
    if AnyAlreadyMember(team.members, ids) {
      return 400;
    }
    AllFoundMeans(ids, db.users);
    db.SetTeam(teamId, team.(members := team.members + NewMemberships(ids, TeamMember)));
    LinkUsers(db, ids, teamId);
    status := 200;
  }

  /** The users after each listed stored user has gained the team id once. */
  function Linked(users: map<UserId, User>, ids: seq<UserId>, t: TeamId): (r: map<UserId, User>)
    ensures r.Keys == users.Keys
    ensures forall k :: k in users && k in ids ==> r[k] == users[k].(teams := AddOnce(users[k].teams, t))
    ensures forall k :: k in users && k !in ids ==> r[k] == users[k]
  {
    map k | k in users :: if k in ids then users[k].(teams := AddOnce(users[k].teams, t)) else users[k]
  }

  /** One more id linked: that user's current `teams` gains the id unless it is already there. */
  lemma LinkedStep(users: map<UserId, User>, ids: seq<UserId>, i: nat, t: TeamId)
    requires i < |ids| && ids[i] in users
    ensures var cur := Linked(users, ids[..i], t);
      Linked(users, ids[..i + 1], t) == cur[ids[i] := cur[ids[i]].(teams := AddOnce(cur[ids[i]].teams, t))]
  {
    assert ids[..i + 1] == ids[..i] + [ids[i]];
  }

  /** The per-user loop of addMembersToTeam: each listed user gains the team id once. */
  method LinkUsers(db: Db, ids: seq<UserId>, teamId: TeamId)
    requires db.Valid() && forall k :: k in ids ==> k in db.users
    modifies db
    ensures db.Valid()
    ensures db.teams == old(db.teams) && db.files == old(db.files) && db.nextId == old(db.nextId)
    ensures db.users.Keys == old(db.users).Keys
    ensures forall k :: k in ids ==> db.users[k] == old(db.users)[k].(teams := AddOnce(old(db.users)[k].teams, teamId))
    ensures forall k :: k in old(db.users) && k !in ids ==> db.users[k] == old(db.users)[k]
  {
    ghost var before := db.users;
    for i := 0 to |ids|
      invariant db.Valid()
      invariant db.teams == old(db.teams) && db.files == old(db.files) && db.nextId == old(db.nextId)
      invariant db.users == Linked(before, ids[..i], teamId)
    {
      LinkedStep(before, ids, i, teamId);
      var user := db.users[ids[i]];
      if teamId !in user.teams {
        db.SetUserTeams(ids[i], user.teams + [teamId]);
      } else {
        assert db.users == db.users[ids[i] := user];
      }
    }
    assert ids[..|ids|] == ids;
  }

  // ------------------------------------------------------------ remove members

  /** removeMembersFromTeam as written: like addMembersToTeam, the admin check throws. */
  method RemoveMembersFromTeam(db: Db, actor: Actor, teamId: TeamId, members: Option<seq<UserId>>)
    returns (status: int)
    ensures status == 400 || status == 404 || status == 500
    ensures status == 400 <==> members.None? || |members.value| == 0
    ensures status == 404 <==> members.Some? && |members.value| > 0 && teamId !in db.teams
  {
    if members.None? || |members.value| == 0 {
      return 400;
    }
    if teamId !in db.teams {
      return 404;
    }
    return 500;
  }

  /** Some requested id has no record in the team. */
  predicate AnyNotMember(members: seq<TeamMembership>, ids: seq<UserId>) {
    exists i :: 0 <= i < |ids| && !IsMember(members, ids[i])
  }

  /**
   * removeMembersFromTeam as evidently intended: admin check on the team's
   * own members, every requested id's records removed, and the team id
   * removed from each such stored user's `teams`.
   */
  method RemoveMembersIntended(db: Db, actor: Actor, teamId: TeamId, members: Option<seq<UserId>>)
    returns (status: int)
    requires db.Valid()
    modifies db
    ensures db.Valid()
    ensures db.files == old(db.files) && db.nextId == old(db.nextId)
    ensures status in {400, 401, 404, 200}
    ensures members.None? || |members.value| == 0 ==> status == 400
    ensures members.Some? && |members.value| > 0 ==>
      (teamId !in old(db.teams) ==> status == 404) &&
      (teamId in old(db.teams) ==>
        var team := old(db.teams)[teamId];
        (!IsAdmin(team.members, actor.id) ==> status == 401) &&
        (IsAdmin(team.members, actor.id) ==>
          (status == 200 <==> !AnyNotMember(team.members, members.value)) &&
          (status == 400 <==> AnyNotMember(team.members, members.value))))
    ensures status == 200 ==>
      var ids, team := members.value, old(db.teams)[teamId];
      db.teams == old(db.teams)[teamId := team.(members := WithoutMembers(team.members, ids))] &&
      (forall u :: u in ids ==> !IsMember(db.teams[teamId].members, u)) &&
      db.users.Keys == old(db.users).Keys &&
      (forall k :: k in ids && k in old(db.users) ==>
        db.users[k] == old(db.users)[k].(teams := Without(old(db.users)[k].teams, teamId)) &&
        teamId !in db.users[k].teams) &&
      (forall k :: k in old(db.users) && k !in ids ==> db.users[k] == old(db.users)[k])
    ensures status != 200 ==> db.teams == old(db.teams) && db.users == old(db.users)
  {
    if members.None? || |members.value| == 0 {
      return 400;
    }
    if teamId !in db.teams {
      return 404;
    }
    var team := db.teams[teamId];
    if !IsAdmin(team.members, actor.id) {
      return 401;
    }
    var ids := members.value;
    if AnyNotMember(team.members, ids) {
      return 400;
    }
    db.SetTeam(teamId, team.(members := WithoutMembers(team.members, ids)));
    WithoutMembersSpec(team.members, ids);
    UnlinkUsers(db, ids, teamId);
    forall k | k in ids && k in old(db.users) ensures teamId !in db.users[k].teams {
      WithoutSpec(old(db.users)[k].teams, teamId);
    }
    status := 200;
  }

  /** The users after each listed stored user has lost the team id. */
  function Unlinked(users: map<UserId, User>, ids: seq<UserId>, t: TeamId): (r: map<UserId, User>)
    ensures r.Keys == users.Keys
    ensures forall k :: k in users && k in ids ==> r[k] == users[k].(teams := Without(users[k].teams, t))
    ensures forall k :: k in users && k !in ids ==> r[k] == users[k]
  {
    map k | k in users :: if k in ids then users[k].(teams := Without(users[k].teams, t)) else users[k]
  }

  /** One more id unlinked: removing the team id again from a user already unlinked changes nothing. */
  lemma UnlinkedStep(users: map<UserId, User>, ids: seq<UserId>, i: nat, t: TeamId)
    requires i < |ids| && ids[i] in users
    ensures var cur := Unlinked(users, ids[..i], t);
      Unlinked(users, ids[..i + 1], t) == cur[ids[i] := cur[ids[i]].(teams := Without(cur[ids[i]].teams, t))]
  {
    assert ids[..i + 1] == ids[..i] + [ids[i]];
    if ids[i] in ids[..i] {
      WithoutTwice(users[ids[i]].teams, t);
    }
  }

  /** The per-user loop of the intended removal: each listed stored user loses the team id. */
  method UnlinkUsers(db: Db, ids: seq<UserId>, teamId: TeamId)
    requires db.Valid()
    modifies db
    ensures db.Valid()
    ensures db.teams == old(db.teams) && db.files == old(db.files) && db.nextId == old(db.nextId)
    ensures db.users.Keys == old(db.users).Keys
    ensures forall k :: k in ids && k in old(db.users) ==>
      db.users[k] == old(db.users)[k].(teams := Without(old(db.users)[k].teams, teamId))
    ensures forall k :: k in old(db.users) && k !in ids ==> db.users[k] == old(db.users)[k]
  {
    ghost var before := db.users;
    for i := 0 to |ids|
      invariant db.Valid()
      invariant db.teams == old(db.teams) && db.files == old(db.files) && db.nextId == old(db.nextId)
      invariant db.users == Unlinked(before, ids[..i], teamId)
    {
      if ids[i] in db.users {
        UnlinkedStep(before, ids, i, teamId);
        var user := db.users[ids[i]];
        db.SetUserTeams(ids[i], Without(user.teams, teamId));
      } else {
        assert ids[..i + 1] == ids[..i] + [ids[i]];
      }
    }
    assert ids[..|ids|] == ids;
  }

  // ------------------------------------------------------------ roles, rename, delete

  predicate RequestRoleAllowed(role: string) {
    role == "admin" || role == "editor" || role == "viewer"
  }

  /**
   * updateMemberRoleInTeam: the handler accepts 'viewer', which the team
   * enum refuses at save (500), and rejects 'member', which the enum allows.
   */
  method UpdateMemberRoleInTeam(db: Db, actor: Actor, teamId: TeamId, memberId: Option<UserId>,
                                role: Option<string>)
    returns (status: int)
    requires db.Valid()
    modifies db
    ensures db.Valid()
    ensures db.users == old(db.users) && db.files == old(db.files) && db.nextId == old(db.nextId)
    ensures status in {400, 403, 404, 200, 500}
    ensures memberId.None? || !Truthy(role) || !RequestRoleAllowed(role.value) <==> status == 400
    ensures memberId.Some? && Truthy(role) && RequestRoleAllowed(role.value) ==>
      (teamId !in old(db.teams) ==> status == 404) &&
      (teamId in old(db.teams) ==>
        var members := old(db.teams)[teamId].members;
        (RoleOf(members, actor.id) != Some(TeamAdmin) ==> status == 403) &&
        (RoleOf(members, actor.id) == Some(TeamAdmin) && FindMember(members, memberId.value).None? ==> status == 404) &&
        (RoleOf(members, actor.id) == Some(TeamAdmin) && FindMember(members, memberId.value).Some? ==>
          (status == 500 <==> role.value == "viewer") && (role.value != "viewer" ==> status == 200)))
    ensures status == 200 ==>
      var team := old(db.teams)[teamId];
      var i := FindMember(team.members, memberId.value).value;
      ParseTeamRole(role.value).Some? &&
      db.teams == old(db.teams)[teamId := team.(members :=
        team.members[i := team.members[i].(role := ParseTeamRole(role.value).value)])]
    ensures status != 200 ==> db.teams == old(db.teams)
  {
    if memberId.None? || !Truthy(role) {
      return 400;
    }
    if !RequestRoleAllowed(role.value) {
      return 400;
    }
    if teamId !in db.teams {
      return 404;
    }
    var team := db.teams[teamId];
    if RoleOf(team.members, actor.id) != Some(TeamAdmin) {
      return 403;
    }
    var idx := FindMember(team.members, memberId.value);
    if idx.None? {
      return 404;
    }
    var r := ParseTeamRole(role.value);
    if r.None? {
      return 500;
    }
    var i := idx.value;
    db.teams := db.teams[teamId := team.(members := team.members[i := team.members[i].(role := r.value)])];
    status := 200;
  }

  /** updateTeam: an admin renames the team or changes its logo; empty fields are ignored. */
  method UpdateTeam(db: Db, actor: Actor, teamId: TeamId, name: Option<string>, logo: Option<string>)
    returns (status: int)
    requires db.Valid()
    modifies db
    ensures db.Valid()
    ensures db.users == old(db.users) && db.files == old(db.files) && db.nextId == old(db.nextId)
    ensures status == 404 <==> teamId !in old(db.teams)
    ensures status == 401 <==> teamId in old(db.teams) && !IsAdmin(old(db.teams)[teamId].members, actor.id)
    ensures status == 200 <==> teamId in old(db.teams) && IsAdmin(old(db.teams)[teamId].members, actor.id)
    ensures status == 200 ==>
      var team := old(db.teams)[teamId];
      db.teams == old(db.teams)[teamId := team.(name := OrElse(name, team.name), logo := OrElse(logo, team.logo))]
    ensures status != 200 ==> db.teams == old(db.teams)
  {
    if teamId !in db.teams {
      return 404;
    }
    var team := db.teams[teamId];
    if !IsAdmin(team.members, actor.id) {
      return 401;
    }
    if Truthy(name) {
      team := team.(name := name);
    }
    if Truthy(logo) {
      team := team.(logo := logo);
    }
    db.teams := db.teams[teamId := team];
    status := 200;
  }

  /** deleteTeam: removes the team record only; files and users keep their references to it. */
  method DeleteTeam(db: Db, actor: Actor, teamId: TeamId) returns (status: int)
    requires db.Valid()
    modifies db
    ensures db.Valid()
    ensures db.users == old(db.users) && db.files == old(db.files) && db.nextId == old(db.nextId)
    ensures status == 404 <==> teamId !in old(db.teams)
    ensures status == 401 <==> teamId in old(db.teams) && !IsAdmin(old(db.teams)[teamId].members, actor.id)
    ensures status == 200 <==> teamId in old(db.teams) && IsAdmin(old(db.teams)[teamId].members, actor.id)
    ensures status == 200 ==> db.teams == old(db.teams) - {teamId}
    ensures status != 200 ==> db.teams == old(db.teams)
  {
    if teamId !in db.teams {
      return 404;
    }
    if !IsAdmin(db.teams[teamId].members, actor.id) {
      return 401;
    }
    db.teams := db.teams - {teamId};
    status := 200;
  }

  // ------------------------------------------------------------ unlink files

  predicate AllStored(ids: seq<FileId>, files: map<FileId, File>) {
    forall i :: 0 <= i < |ids| ==> ids[i] in files
  }

  /** The file has an access entry for the team. */
  predicate HasTeamEntry(f: File, t: TeamId) {
    exists j :: 0 <= j < |f.access| && f.access[j].team == Some(t)
  }

  /** Every requested file has an access entry for the team. */
  predicate EveryFileHasTeamEntry(files: map<FileId, File>, ids: seq<FileId>, t: TeamId)
    requires AllStored(ids, files)
  {
    forall i :: 0 <= i < |ids| ==> HasTeamEntry(files[ids[i]], t)
  }

  /**
   * The access check loop of removeFilesFromTeam, in request order: each
   * file must have an entry for the team, found by an unguarded scan of
   * `access.team`; the first failure is reported.
   */
  function CheckTeamEntries(files: map<FileId, File>, ids: seq<FileId>, t: TeamId): Eval<bool>
    requires AllStored(ids, files)
    decreases |ids|
  {
    if ids == [] then Returns(true)
    else
      match AnyKeyIs(files[ids[0]].access, EntryTeam, t)
      case Throws => Throws
      case Returns(false) => Returns(false)
      case Returns(true) => CheckTeamEntries(files, ids[1..], t)
  }

  /** When the check loop finishes without throwing, it accepts exactly when every file has an entry for the team. */
  lemma {:induction false} CheckTeamEntriesSpec(files: map<FileId, File>, ids: seq<FileId>, t: TeamId)
    requires AllStored(ids, files)
    ensures CheckTeamEntries(files, ids, t).Returns? ==>
      (CheckTeamEntries(files, ids, t).value <==> EveryFileHasTeamEntry(files, ids, t))
    decreases |ids|
  {
    if ids != [] {
      var f := files[ids[0]];
      var first := AnyKeyIs(f.access, EntryTeam, t);
      if first.Returns? {
        assert first.value <==> HasTeamEntry(f, t) by {
          if first.value {
            var j :| 0 <= j < |f.access| && EntryTeam(f.access[j]) == Some(t);
            assert f.access[j].team == Some(t);
          } else {
            forall j | 0 <= j < |f.access| ensures f.access[j].team != Some(t) {
              assert EntryTeam(f.access[j]) != Some(t);
            }
          }
        }
        assert AllStored(ids[1..], files);
        CheckTeamEntriesSpec(files, ids[1..], t);
        assert EveryFileHasTeamEntry(files, ids, t) <==>
          HasTeamEntry(f, t) && EveryFileHasTeamEntry(files, ids[1..], t)
        by {
          if HasTeamEntry(f, t) && EveryFileHasTeamEntry(files, ids[1..], t) {
            forall i | 0 < i < |ids| ensures HasTeamEntry(files[ids[i]], t) {
              assert ids[i] == ids[1..][i - 1];
            }
          }
          if EveryFileHasTeamEntry(files, ids, t) {
            forall i | 0 <= i < |ids[1..]| ensures HasTeamEntry(files[ids[1..][i]], t) {
              assert ids[1..][i] == ids[i + 1];
            }
          }
        }
      }
    }
  }

  /**
   * `file.access.filter(a => a.team.toString() !== t.toString())`: every
   * entry is visited, so any entry without a team throws. When `guarded`,
   * the test is the evidently intended `a.team?.toString()`, which never throws.
   */
  function StripTeam(access: seq<AccessEntry>, t: TeamId, guarded: bool): (r: Eval<seq<AccessEntry>>)
    ensures r.Throws? <==> !guarded && exists i :: 0 <= i < |access| && access[i].team.None?
    ensures r.Returns? ==> forall i :: 0 <= i < |r.value| ==> r.value[i].team != Some(t)
    ensures r.Returns? ==> r.value == Filter(access, (e: AccessEntry) => e.team != Some(t))
  {
    if guarded || forall i :: 0 <= i < |access| ==> access[i].team.Some? then
      Returns(Filter(access, (e: AccessEntry) => e.team != Some(t)))
    else
      Throws
  }

  /**
   * The saves of the stripped files, one after another in request order,
   * up to the first one whose filter throws: the resulting file map, and
   * whether a throw stopped the run.
   */
  function StripAll(files: map<FileId, File>, ids: seq<FileId>, t: TeamId, guarded: bool): (r: (map<FileId, File>, bool))
    requires AllStored(ids, files)
    ensures r.0.Keys == files.Keys
    decreases |ids|
  {
    if ids == [] then (files, false)
    else
      var f := files[ids[0]];
      match StripTeam(f.access, t, guarded)
      case Throws => (files, true)
      case Returns(a) => StripAll(files[ids[0] := f.(access := a)], ids[1..], t, guarded)
  }

  /**
   * A run that completes leaves no entry for the team on any requested
   * file, changes only the access lists of requested files, and keeps the
   * files valid.
   */
  lemma {:induction false} StripAllSpec(files: map<FileId, File>, ids: seq<FileId>, t: TeamId, guarded: bool)
    requires AllStored(ids, files)
    requires !StripAll(files, ids, t, guarded).1
    ensures var r := StripAll(files, ids, t, guarded).0;
      (forall i :: 0 <= i < |ids| ==> forall j :: 0 <= j < |r[ids[i]].access| ==> r[ids[i]].access[j].team != Some(t)) &&
      (forall k :: k in files && k !in ids ==> r[k] == files[k]) &&
      (forall k :: k in files ==> r[k] == files[k].(access := r[k].access))
    decreases |ids|
  {
    if ids != [] {
      var f := files[ids[0]];
      var a := StripTeam(f.access, t, guarded).value;
      var files' := files[ids[0] := f.(access := a)];
      assert forall i :: 0 <= i < |ids[1..]| ==> ids[1..][i] in files';
      StripAllSpec(files', ids[1..], t, guarded);
      var r := StripAll(files, ids, t, guarded).0;
      assert r == StripAll(files', ids[1..], t, guarded).0;
      forall i | 0 <= i < |ids| ensures forall j :: 0 <= j < |r[ids[i]].access| ==> r[ids[i]].access[j].team != Some(t) {
        if ids[i] !in ids[1..] {
          assert i == 0;
        } else {
          var i' :| 0 <= i' < |ids[1..]| && ids[1..][i'] == ids[i];
        }
      }
    }
  }

  /** A guarded run never throws. */
  lemma {:induction false} GuardedStripCompletes(files: map<FileId, File>, ids: seq<FileId>, t: TeamId)
    requires AllStored(ids, files)
    ensures !StripAll(files, ids, t, true).1
    decreases |ids|
  {
    if ids != [] {
      var f := files[ids[0]];
      var files' := files[ids[0] := f.(access := StripTeam(f.access, t, true).value)];
      GuardedStripCompletes(files', ids[1..], t);
    }
  }

  predicate MayUnlink(role: Option<TeamRole>) {
    role == Some(TeamAdmin) || role == Some(TeamEditor)
  }

  /**
   * The saves of removeFilesFromTeam, run one file at a time in request
   * order; a throw stops the run and leaves the earlier saves in place.
   */
  method SaveStripped(db: Db, ids: seq<FileId>, t: TeamId, guarded: bool) returns (threw: bool)
    requires db.Valid() && AllStored(ids, db.files)
    modifies db
    ensures db.Valid()
    ensures db.users == old(db.users) && db.teams == old(db.teams) && db.nextId == old(db.nextId)
    ensures (db.files, threw) == StripAll(old(db.files), ids, t, guarded)
  {
    var i := 0;
    threw := false;
    while i < |ids|
      invariant 0 <= i <= |ids|
      invariant db.Valid() && AllStored(ids, db.files)
      invariant db.users == old(db.users) && db.teams == old(db.teams) && db.nextId == old(db.nextId)
      invariant StripAll(old(db.files), ids, t, guarded) == StripAll(db.files, ids[i..], t, guarded)
    {
      assert ids[i..][0] == ids[i] && ids[i..][1..] == ids[i + 1..];
      var f := db.files[ids[i]];
      var stripped := StripTeam(f.access, t, guarded);
      if stripped.Throws? {
        return true;
      }
      db.SetFileAccess(ids[i], stripped.value);
      i := i + 1;
    }
    assert ids[i..] == [];
  }

  /**
   * removeFilesFromTeam as written. Its query populates `team.files`, whose
   * schema ref names a model 'Files', while the file model is registered as
   * 'File'. The query therefore rejects for every stored team, and the
   * handler answers 500 after the list and team checks, changing nothing.
   */
  method RemoveFilesFromTeam(db: Db, teamId: TeamId, files: Option<seq<FileId>>) returns (status: int)
    ensures status in {400, 404, 500}
    ensures status == 400 <==> files.None? || |files.value| == 0
    ensures status == 404 <==> files.Some? && |files.value| > 0 && teamId !in db.teams
    ensures files.Some? && |files.value| > 0 && teamId in db.teams ==> status == 500
  {
    if files.None? || |files.value| == 0 {
      return 400;
    }
    if teamId !in db.teams {
      return 404;
    }
    return 500;
  }

  /**
   * removeFilesFromTeam with only the schema ref corrected to 'File'.
   * `team.files` then holds populated documents, and a document's
   * `toString()` is not its id, so the filter of `team.files` removes
   * nothing: the team keeps every file id. The access filter still throws
   * on entries without a team.
   */
  method RemoveFilesWithRefFixed(db: Db, actor: Actor, teamId: TeamId, files: Option<seq<FileId>>)
    returns (status: int)
    requires db.Valid()
    modifies db
    ensures db.Valid()
    ensures db.users == old(db.users) && db.teams == old(db.teams) && db.nextId == old(db.nextId)
    ensures status in {400, 403, 404, 200, 500}
    ensures status == 400 <==> files.None? || |files.value| == 0
    ensures files.Some? && |files.value| > 0 ==>
      (teamId !in old(db.teams) ==> status == 404) &&
      (teamId in old(db.teams) ==>
        (!MayUnlink(RoleOf(old(db.teams)[teamId].members, actor.id)) ==> status == 403) &&
        (MayUnlink(RoleOf(old(db.teams)[teamId].members, actor.id)) ==>
          (!AllStored(files.value, old(db.files)) ==> status == 404) &&
          (AllStored(files.value, old(db.files)) ==>
            (CheckTeamEntries(old(db.files), files.value, teamId).Throws? ==> status == 500) &&
            (CheckTeamEntries(old(db.files), files.value, teamId) == Returns(false) ==> status == 403) &&
            (CheckTeamEntries(old(db.files), files.value, teamId) == Returns(true) ==>
              db.files == StripAll(old(db.files), files.value, teamId, false).0 &&
              (status == 200 <==> !StripAll(old(db.files), files.value, teamId, false).1) &&
              (status == 500 <==> StripAll(old(db.files), files.value, teamId, false).1)))))
    ensures status == 200 ==>
      AllStored(files.value, db.files) &&
      forall i :: 0 <= i < |files.value| ==>
        forall j :: 0 <= j < |db.files[files.value[i]].access| ==> db.files[files.value[i]].access[j].team != Some(teamId)
    ensures status != 200 && status != 500 ==> db.files == old(db.files)
  {
    if files.None? || |files.value| == 0 {
      return 400;
    }
    if teamId !in db.teams {
      return 404;
    }
    if !MayUnlink(RoleOf(db.teams[teamId].members, actor.id)) {
      return 403;
    }
    var ids := files.value;
    if !AllStored(ids, db.files) {
      return 404;
    }
    var check := CheckTeamEntries(db.files, ids, teamId);
    if check.Throws? {
      return 500;
    }
    if !check.value {
      return 403;
    }
    var threw := SaveStripped(db, ids, teamId, false);
    if threw {
      return 500;
    }
    StripAllSpec(old(db.files), ids, teamId, false);
    status := 200;
  }

  /**
   * removeFilesFromTeam as evidently intended: the ref names the file
   * model, the check and the filter skip entries without a team, and the
   * file ids are removed from `team.files`.
   * Afterwards the team lists none of the files and no file has an entry for
   * the team: both sides of the link are gone.
   */
  method RemoveFilesIntended(db: Db, actor: Actor, teamId: TeamId, files: Option<seq<FileId>>)
    returns (status: int)
    requires db.Valid()
    modifies db
    ensures db.Valid()
    ensures db.users == old(db.users) && db.nextId == old(db.nextId)
    ensures status in {400, 403, 404, 200}
    ensures status == 400 <==> files.None? || |files.value| == 0
    ensures files.Some? && |files.value| > 0 ==>
      (teamId !in old(db.teams) ==> status == 404) &&
      (teamId in old(db.teams) ==>
        (!MayUnlink(RoleOf(old(db.teams)[teamId].members, actor.id)) ==> status == 403) &&
        (MayUnlink(RoleOf(old(db.teams)[teamId].members, actor.id)) ==>
          (!AllStored(files.value, old(db.files)) ==> status == 404) &&
          (AllStored(files.value, old(db.files)) ==>
            (status == 200 <==> EveryFileHasTeamEntry(old(db.files), files.value, teamId)) &&
            (status == 403 <==> !EveryFileHasTeamEntry(old(db.files), files.value, teamId)))))
    ensures status == 200 ==>
      var ids, team := files.value, old(db.teams)[teamId];
      db.teams == old(db.teams)[teamId := team.(files := Filter(team.files, (f: FileId) => f !in ids))] &&
      (forall i :: 0 <= i < |ids| ==> ids[i] !in db.teams[teamId].files) &&
      AllStored(ids, db.files) && db.files.Keys == old(db.files).Keys &&
      (forall i :: 0 <= i < |ids| ==>
        forall j :: 0 <= j < |db.files[ids[i]].access| ==> db.files[ids[i]].access[j].team != Some(teamId)) &&
      (forall k :: k in old(db.files) && k !in ids ==> db.files[k] == old(db.files)[k])
    ensures status != 200 ==> db.files == old(db.files) && db.teams == old(db.teams)
  {
    if files.None? || |files.value| == 0 {
      return 400;
    }
    if teamId !in db.teams {
      return 404;
    }
    var team := db.teams[teamId];
    if !MayUnlink(RoleOf(team.members, actor.id)) {
      return 403;
    }
    var ids := files.value;
    if !AllStored(ids, db.files) {
      return 404;
    }
    if !EveryFileHasTeamEntry(db.files, ids, teamId) {
      return 403;
    }
    db.teams := db.teams[teamId := team.(files := Filter(team.files, (f: FileId) => f !in ids))];
    ghost var before := db.files;
    GuardedStripCompletes(before, ids, teamId);
    var _ := SaveStripped(db, ids, teamId, true);
    StripAllSpec(before, ids, teamId, true);
    status := 200;
  }

  // ------------------------------------------------------------ suggestions

  /**
   * getTeamSuggestions: the teams the name search found, split by the
   * membership test into the caller's teams and the others, each in the
   * order found.
   */
  method GetTeamSuggestions(found: seq<Team>, isMine: Team -> bool)
    returns (userTeams: seq<Team>, otherTeams: seq<Team>)
    ensures userTeams == Filter(found, isMine)
    ensures otherTeams == Filter(found, Not(isMine))
    ensures multiset(userTeams) + multiset(otherTeams) == multiset(found)
  {
    userTeams, otherTeams := [], [];
    for i := 0 to |found|
      invariant userTeams == Filter(found[..i], isMine)
      invariant otherTeams == Filter(found[..i], Not(isMine))
    {
      assert found[..i + 1] == found[..i] + [found[i]];
      FilterSnoc(found[..i], found[i], isMine);
      FilterSnoc(found[..i], found[i], Not(isMine));
      if isMine(found[i]) {
        userTeams := userTeams + [found[i]];
      } else {
        otherTeams := otherTeams + [found[i]];
      }
    }
    assert found[..|found|] == found;
    FilterPartition(found, isMine);
  }
}
