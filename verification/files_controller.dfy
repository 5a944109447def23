/**
 * The file handlers: create a personal or team file, read, update and
 * delete a file, and grant, revoke and edit entries of its access list.
 *
 * Each handler takes the store, the caller (`req.user`) and the request
 * fields, and returns the status code its `responseHandler` call sends. A
 * TypeError inside the handler's `try` becomes the 500 of its `catch`; a
 * failed `save` validation does too. Nothing is written before a handler
 * decides to succeed, except where a contract says otherwise.
 */
module FilesController {
  import opened Schema
  import opened Lists
  import opened AccessList
  import opened Membership
  import opened Database

  function OwnerInput(u: UserId): AccessInput {
    AccessInput(Some(u), None, Some("admin"))
  }

  function TeamInput(t: TeamId): AccessInput {
    AccessInput(None, Some(t), Some("admin"))
  }

  /**
   * The access list a personal file is created with: the caller as admin
   * when no list is supplied; otherwise the supplied list, with the caller
   * appended as admin when the (unguarded) scan does not find the caller.
   */
  function SeedPersonal(access: Option<seq<AccessInput>>, u: UserId): (r: Eval<seq<AccessInput>>)
    ensures access.None? ==> r == Returns([OwnerInput(u)])
    ensures r.Throws? <==> access.Some? && FirstKeyMatch(access.value, InputMember, u).Throws?
    ensures r.Returns? ==> exists i :: 0 <= i < |r.value| && r.value[i].member == Some(u)
    ensures r.Returns? && access.Some? ==>
      |access.value| <= |r.value| <= |access.value| + 1 && r.value[..|access.value|] == access.value
    ensures r.Returns? && access.Some? ==>
      (|r.value| == |access.value| <==> exists i :: 0 <= i < |access.value| && access.value[i].member == Some(u))
    ensures r.Returns? && access.Some? && |r.value| > |access.value| ==> r.value[|access.value|] == OwnerInput(u)
  {
    match access
    case None =>
      var r := [OwnerInput(u)];
      assert r[0].member == Some(u);
      Returns(r)
    case Some(a) =>
      match AnyKeyIs(a, InputMember, u)
      case Throws => Throws
      case Returns(found) =>
        var r := if found then a else a + [OwnerInput(u)];
        assert !found ==> r[|a|].member == Some(u);
        Returns(r)
  }

  /**
   * The access list a team file is created with: the caller and the team,
   * both as admin, when no list is supplied; otherwise the supplied list
   * with the caller appended unless found, and then the team entry appended
   * unless found, each by an unguarded scan.
   */
  function SeedTeam(access: Option<seq<AccessInput>>, u: UserId, t: TeamId): (r: Eval<seq<AccessInput>>)
    ensures access.None? ==> r == Returns([OwnerInput(u), TeamInput(t)])
    ensures r.Returns? ==> exists i :: 0 <= i < |r.value| && r.value[i].member == Some(u)
    ensures r.Returns? ==> exists i :: 0 <= i < |r.value| && r.value[i].team == Some(t)
    ensures r.Returns? && access.Some? ==>
      |access.value| <= |r.value| <= |access.value| + 2 && r.value[..|access.value|] == access.value
  {
    match access
    case None =>
      var r := [OwnerInput(u), TeamInput(t)];
      assert r[0].member == Some(u) && r[1].team == Some(t);
      Returns(r)
    case Some(a) =>
      match SeedPersonal(access, u)
      case Throws => Throws
      case Returns(a1) =>
        match AnyKeyIs(a1, InputTeam, t)
        case Throws => Throws
        case Returns(found) =>
          var r := if found then a1 else a1 + [TeamInput(t)];
          assert !found ==> r[|a1|].team == Some(t);
          assert r[..|a1|] == a1;
          assert r[..|a|] == a1[..|a|];
          Returns(r)
  }

  /**
   * A supplied team-file list goes through the personal seeding first; the
   * result throws when that does or when the team scan of its list does,
   * and is otherwise that list with the team appended exactly when no entry
   * names the team.
   */
  lemma SeedTeamSpec(a: seq<AccessInput>, u: UserId, t: TeamId)
    ensures SeedTeam(Some(a), u, t).Throws? <==>
      (SeedPersonal(Some(a), u).Throws? || FirstKeyMatch(SeedPersonal(Some(a), u).value, InputTeam, t).Throws?)
    ensures SeedTeam(Some(a), u, t).Returns? ==>
      var a1 := SeedPersonal(Some(a), u).value;
      SeedTeam(Some(a), u, t).value ==
        a1 + (if exists i :: 0 <= i < |a1| && a1[i].team == Some(t) then [] else [TeamInput(t)])
  {
    var s1 := SeedPersonal(Some(a), u);
    if s1.Returns? {
      var scan := AnyKeyIs(s1.value, InputTeam, t);
      if scan.Returns? {
        assert scan.value <==> exists i :: 0 <= i < |s1.value| && s1.value[i].team == Some(t);
      }
    }
  }

  /**
   * A supplied team-file list that names neither the caller nor the team,
   * and whose entries all name a member, makes creation throw: the team
   * scan steps over the member entries and reaches the caller's appended
   * entry, which has no team.
   */
  lemma SeedTeamThrowsWithoutTeamEntry(a: seq<AccessInput>, u: UserId, t: TeamId)
    requires forall i :: 0 <= i < |a| ==> a[i].member.Some? && a[i].member.value != u
    requires forall i :: 0 <= i < |a| ==> a[i].team.None?
    ensures SeedTeam(Some(a), u, t).Throws?
  {
    var a1 := a + [OwnerInput(u)];
    assert FirstKeyMatch(a, InputMember, u) == Returns(None);
    assert SeedPersonal(Some(a), u) == Returns(a1);
    assert InputTeam(a1[|a|]).None?;
    if |a| > 0 {
      assert InputTeam(a1[0]).None?;
    }
  }

  /**
   * `new File({...}).save()`: the stored document, or none when validation
   * fails (title or content missing or empty, or an access role outside the
   * enum). Access entries get ids first, first + 1, ...
   */
  function NewFile(title: Option<string>, content: Option<string>, owner: UserId,
                   inputs: seq<AccessInput>, first: nat, kind: FileType): (r: Option<File>)
    ensures r.Some? <==> Truthy(title) && Truthy(content) && CastAccess(inputs, first).Some?
    ensures r.Some? ==> FileValid(r.value) && r.value.owner == owner && r.value.kind == Some(kind)
    ensures r.Some? ==> r.value.title == title.value && r.value.content == content.value
    ensures r.Some? ==> r.value.access == CastAccess(inputs, first).value
  {
    if Truthy(title) && Truthy(content) && CastAccess(inputs, first).Some? then
      Some(File(title.value, content.value, owner, CastAccess(inputs, first).value, Some(kind)))
    else
      None
  }

  /**
   * A personal file saved from its seed lists the caller, and from the
   * default seed it lists exactly the caller as admin.
   */
  lemma PersonalSeedCast(title: Option<string>, content: Option<string>, u: UserId,
                         access: Option<seq<AccessInput>>, first: nat)
    requires SeedPersonal(access, u).Returns?
    ensures var f := NewFile(title, content, u, SeedPersonal(access, u).value, first, Personal);
      f.Some? ==> exists i :: 0 <= i < |f.value.access| && f.value.access[i].member == Some(u)
    ensures var f := NewFile(title, content, u, SeedPersonal(access, u).value, first, Personal);
      f.Some? && access.None? ==> f.value.access == [AccessEntry(first, Some(u), None, Some(Admin))]
  {
    var seed := SeedPersonal(access, u).value;
    var f := NewFile(title, content, u, seed, first, Personal);
    if f.Some? {
      var i :| 0 <= i < |seed| && seed[i].member == Some(u);
      assert f.value.access[i].member == Some(u);
      if access.None? {
        CastAccessEntries(seed, first);
        assert f.value.access == [f.value.access[0]];
      }
    }
  }

  /**
   * createPersonalFile: 400 without a title, 500 when the seed throws or the
   * save fails, else 201 with the file stored under the next id and the
   * caller among its access entries.
   */
  method CreatePersonalFile(db: Db, actor: Actor, title: Option<string>, content: Option<string>,
                            access: Option<seq<AccessInput>>)
    returns (status: int, id: FileId)
    requires db.Valid()
    modifies db
    ensures db.Valid()
    ensures db.users == old(db.users) && db.teams == old(db.teams)
    ensures status == 400 || status == 201 || status == 500
    ensures status == 400 <==> !Truthy(title)
    ensures var seed := SeedPersonal(access, actor.id);
      status == 201 <==>
        Truthy(title) && seed.Returns? &&
        NewFile(title, content, actor.id, seed.value, old(db.nextId) + 1, Personal).Some?
    ensures status == 201 ==>
      id == old(db.nextId) && id !in old(db.files) &&
      db.files == old(db.files)[id := NewFile(title, content, actor.id, SeedPersonal(access, actor.id).value,
                                              old(db.nextId) + 1, Personal).value]
    ensures status == 201 ==>
      exists i :: 0 <= i < |db.files[id].access| && db.files[id].access[i].member == Some(actor.id)
    ensures status == 201 && access.None? ==>
      db.files[id].access == [AccessEntry(id + 1, Some(actor.id), None, Some(Admin))]
    ensures status != 201 ==> db.files == old(db.files)
  {
    id := 0;
    if !Truthy(title) {
      return 400, id;
    }
    var seed := SeedPersonal(access, actor.id);
    if seed.Throws? {
      return 500, id;
    }
    var n := db.nextId;
    var saved := NewFile(title, content, actor.id, seed.value, n + 1, Personal);
    if saved.None? {
      return 500, id;
    }
    PersonalSeedCast(title, content, actor.id, access, n + 1);
    ghost var i :| 0 <= i < |saved.value.access| && saved.value.access[i].member == Some(actor.id);
    id := db.InsertFile(saved.value, |seed.value|);
    assert db.files[id].access[i].member == Some(actor.id);
    status := 201;
  }

  predicate MayAddFiles(role: Option<TeamRole>) {
    role == Some(TeamAdmin) || role == Some(TeamEditor)
  }

  /** The default team-file seed casts to the caller and the team as admins, with consecutive ids. */
  lemma DefaultTeamSeedCast(title: Option<string>, content: Option<string>, u: UserId, t: TeamId, first: nat)
    ensures CastAccess([OwnerInput(u), TeamInput(t)], first) ==
      Some([AccessEntry(first, Some(u), None, Some(Admin)), AccessEntry(first + 1, None, Some(t), Some(Admin))])
    ensures NewFile(title, content, u, SeedTeam(None, u, t).value, first, TeamOwned).Some? ==>
      NewFile(title, content, u, SeedTeam(None, u, t).value, first, TeamOwned).value.access ==
        [AccessEntry(first, Some(u), None, Some(Admin)), AccessEntry(first + 1, None, Some(t), Some(Admin))]
  {
    var inputs := [OwnerInput(u), TeamInput(t)];
    assert InputRoleOk(inputs[0].role) && InputRoleOk(inputs[1].role);
    CastAccessEntries(inputs, first);
    var r := CastAccess(inputs, first).value;
    assert r[0] == CastEntry(inputs[0], first) == AccessEntry(first, Some(u), None, Some(Admin));
    assert r[1] == CastEntry(inputs[1], first + 1) == AccessEntry(first + 1, None, Some(t), Some(Admin));
    assert |r| == 2 && r == [r[0], r[1]];
  }

  /** createTeamFile. */
  method CreateTeamFile(db: Db, actor: Actor, title: Option<string>, content: Option<string>,
                        teamId: Option<TeamId>, access: Option<seq<AccessInput>>)
    returns (status: int, id: FileId)
    requires db.Valid()
    modifies db
    ensures db.Valid()
    ensures db.users == old(db.users)
    ensures status in {400, 401, 404, 201, 500}
    ensures status == 400 <==> !Truthy(title) && teamId.None?
    ensures status == 404 <==> (Truthy(title) || teamId.Some?) && (teamId.None? || teamId.value !in old(db.teams))
    ensures status == 401 <==>
      teamId.Some? && teamId.value in old(db.teams) &&
      !MayAddFiles(RoleOf(old(db.teams)[teamId.value].members, actor.id))
    ensures status == 201 <==>
      teamId.Some? && teamId.value in old(db.teams) &&
      MayAddFiles(RoleOf(old(db.teams)[teamId.value].members, actor.id)) &&
      SeedTeam(access, actor.id, teamId.value).Returns? &&
      NewFile(title, content, actor.id, SeedTeam(access, actor.id, teamId.value).value,
              old(db.nextId) + 1, TeamOwned).Some?
    ensures status == 201 ==>
      var t := teamId.value;
      id == old(db.nextId) && id !in old(db.files) &&
      db.files == old(db.files)[id := NewFile(title, content, actor.id, SeedTeam(access, actor.id, t).value,
                                              old(db.nextId) + 1, TeamOwned).value] &&
      db.teams == old(db.teams)[t := old(db.teams)[t].(files := old(db.teams)[t].files + [id])]
    ensures status == 201 && access.None? ==>
      db.files[id].access == [AccessEntry(id + 1, Some(actor.id), None, Some(Admin)),
                              AccessEntry(id + 2, None, Some(teamId.value), Some(Admin))]
    ensures status != 201 ==> db.files == old(db.files) && db.teams == old(db.teams)
  {
    id := 0;
    if !Truthy(title) && teamId.None? {
      return 400, id;
    }
    if teamId.None? || teamId.value !in db.teams {
      return 404, id;
    }
    var t := teamId.value;
    if !MayAddFiles(RoleOf(db.teams[t].members, actor.id)) {
      return 401, id;
    }
    var seed := SeedTeam(access, actor.id, t);
    if seed.Throws? {
      return 500, id;
    }
    status, id := SaveTeamFile(db, actor, title, content, t, seed.value);
    if status == 201 && access.None? {
      DefaultTeamSeedCast(title, content, actor.id, t, id + 1);
    }
  }

  /**
   * The save step of createTeamFile once the access list is seeded: the
   * file is stored under a fresh id and the id appended to the team's files,
   * or nothing changes when validation fails.
   */
  method SaveTeamFile(db: Db, actor: Actor, title: Option<string>, content: Option<string>,
                      t: TeamId, seed: seq<AccessInput>)
    returns (status: int, id: FileId)
    requires db.Valid() && t in db.teams
    modifies db
    ensures db.Valid()
    ensures db.users == old(db.users)
    ensures status == 201 || status == 500
    ensures status == 201 <==> NewFile(title, content, actor.id, seed, old(db.nextId) + 1, TeamOwned).Some?
    ensures status == 201 ==>
      id == old(db.nextId) && id !in old(db.files) &&
      db.files == old(db.files)[id := NewFile(title, content, actor.id, seed, old(db.nextId) + 1, TeamOwned).value] &&
      db.teams == old(db.teams)[t := old(db.teams)[t].(files := old(db.teams)[t].files + [id])]
    ensures status != 201 ==> db.files == old(db.files) && db.teams == old(db.teams)
  {
    id := 0;
    var saved := NewFile(title, content, actor.id, seed, db.nextId + 1, TeamOwned);
    if saved.None? {
      return 500, id;
    }
    id := db.InsertTeamFile(saved.value, |seed|, t);
    status := 201;
  }

  /** getFileById: the file and the caller's `userRole`, when the caller may read it. */
  method GetFileById(db: Db, actor: Actor, fileId: FileId)
    returns (status: int, file: Option<File>, userRole: Option<FileRole>)
    ensures status == 404 <==> fileId !in db.files
    ensures status == 403 <==>
      (fileId in db.files &&
       !HasAccess(Populated(db.files[fileId].access, db.users.Keys, db.teams.Keys), actor.id, actor.teams))
    ensures status == 200 <==>
      (fileId in db.files &&
       HasAccess(Populated(db.files[fileId].access, db.users.Keys, db.teams.Keys), actor.id, actor.teams))
    ensures status == 200 ==>
      var access := Populated(db.files[fileId].access, db.users.Keys, db.teams.Keys);
      file == Some(db.files[fileId].(access := access)) && userRole == DirectRole(access, actor.id)
    ensures status != 200 ==> file.None? && userRole.None?
  {
    if fileId !in db.files {
      return 404, None, None;
    }
    var f := db.files[fileId];
    var access := Populated(f.access, db.users.Keys, db.teams.Keys);
    if !HasAccess(access, actor.id, actor.teams) {
      return 403, None, None;
    }
    return 200, Some(f.(access := access)), DirectRole(access, actor.id);
  }

  /** The request carries something to update: `title || content || access`. */
  predicate HasUpdate(title: Option<string>, content: Option<string>, access: Option<seq<AccessInput>>) {
    Truthy(title) || Truthy(content) || access.Some?
  }

  /** updateFile: only the truthy fields change; a supplied access list replaces the old one. */
  method UpdateFile(db: Db, actor: Actor, fileId: FileId, title: Option<string>, content: Option<string>,
                    access: Option<seq<AccessInput>>)
    returns (status: int)
    requires db.Valid()
    modifies db
    ensures db.Valid()
    ensures db.users == old(db.users) && db.teams == old(db.teams)
    ensures status in {400, 403, 404, 200, 500}
    ensures status == 400 <==> !HasUpdate(title, content, access)
    ensures status == 404 <==> HasUpdate(title, content, access) && fileId !in old(db.files)
    ensures status == 403 <==>
      HasUpdate(title, content, access) && fileId in old(db.files) &&
      !MayUpdate(old(db.files)[fileId].access, actor.id, actor.teams)
    ensures status == 200 <==>
      HasUpdate(title, content, access) && fileId in old(db.files) &&
      MayUpdate(old(db.files)[fileId].access, actor.id, actor.teams) &&
      (access.None? || CastAccess(access.value, old(db.nextId)).Some?)
    ensures status == 200 ==>
      fileId in db.files &&
      var f, g := old(db.files)[fileId], db.files[fileId];
      db.files.Keys == old(db.files).Keys &&
      (forall k :: k in db.files && k != fileId ==> db.files[k] == old(db.files)[k]) &&
      g.title == (if Truthy(title) then title.value else f.title) &&
      g.content == (if Truthy(content) then content.value else f.content) &&
      g.access == (if access.Some? then CastAccess(access.value, old(db.nextId)).value else f.access) &&
      g.owner == f.owner && g.kind == f.kind
    ensures status != 200 ==> db.files == old(db.files)
  {
    if !HasUpdate(title, content, access) {
      return 400;
    }
    if fileId !in db.files {
      return 404;
    }
    var f := db.files[fileId];
    if !MayUpdate(f.access, actor.id, actor.teams) {
      return 403;
    }
    var n := db.nextId;
    var g := f;
    if Truthy(title) {
      g := g.(title := title.value);
    }
    if Truthy(content) {
      g := g.(content := content.value);
    }
    if access.Some? {
      var cast := CastAccess(access.value, n);
      if cast.None? {
        return 500;
      }
      g := g.(access := cast.value);
      db.AdvanceTo(n + |access.value|);
    }
    db.SetFile(fileId, g);
    status := 200;
  }

  /**
   * The delete check, on a file whose owner is populated: an owner no longer
   * stored comes back null and `file.owner._id` throws; otherwise the owner
   * always passes, and anyone else needs the first entry naming them to be
   * an admin entry, found by an unguarded scan.
   */
  function MayDelete(f: File, u: UserId, users: set<UserId>): (r: Eval<bool>)
    ensures f.owner !in users ==> r.Throws?
    ensures f.owner in users && f.owner == u ==> r == Returns(true)
    ensures f.owner in users && f.owner != u ==> r == DirectAdmin(f.access, u)
    ensures r == Returns(true) ==>
      f.owner == u ||
      exists i :: 0 <= i < |f.access| && f.access[i].member == Some(u) && f.access[i].role == Some(Admin)
  {
    if f.owner !in users then Throws
    else if f.owner == u then Returns(true)
    else DirectAdmin(f.access, u)
  }

  /** deleteFile: a team file is also pulled from the team that `findOne` returns. */
  method DeleteFile(db: Db, actor: Actor, fileId: FileId)
    returns (status: int, holder: Option<TeamId>)
    requires db.Valid()
    modifies db
    ensures db.Valid()
    ensures db.users == old(db.users)
    ensures status in {404, 403, 200, 500}
    ensures status == 404 <==> fileId !in old(db.files)
    ensures status == 500 <==> fileId in old(db.files) && MayDelete(old(db.files)[fileId], actor.id, old(db.users).Keys).Throws?
    ensures status == 403 <==> fileId in old(db.files) && MayDelete(old(db.files)[fileId], actor.id, old(db.users).Keys) == Returns(false)
    ensures status == 200 <==> fileId in old(db.files) && MayDelete(old(db.files)[fileId], actor.id, old(db.users).Keys) == Returns(true)
    ensures status == 200 ==> db.files == old(db.files) - {fileId}
    ensures status == 200 && holder.Some? ==>
      var t := holder.value;
      old(db.files)[fileId].kind == Some(TeamOwned) && t in old(db.teams) && fileId in old(db.teams)[t].files &&
      db.teams == old(db.teams)[t := old(db.teams)[t].(files := Without(old(db.teams)[t].files, fileId))]
    ensures status == 200 && holder.None? ==>
      db.teams == old(db.teams) &&
      (old(db.files)[fileId].kind == Some(TeamOwned) ==>
        forall t :: t in old(db.teams) ==> fileId !in old(db.teams)[t].files)
    ensures status != 200 ==> db.files == old(db.files) && db.teams == old(db.teams) && holder.None?
  {
    holder := None;
    if fileId !in db.files {
      return 404, holder;
    }
    var f := db.files[fileId];
    var may := MayDelete(f, actor.id, db.users.Keys);
    if may.Throws? {
      return 500, holder;
    }
    if !may.value {
      return 403, holder;
    }
    if f.kind == Some(TeamOwned) && exists t :: t in db.teams && fileId in db.teams[t].files {
      var t :| t in db.teams && fileId in db.teams[t].files;
      db.SetTeam(t, db.teams[t].(files := Without(db.teams[t].files, fileId)));
      holder := Some(t);
    }
    db.RemoveFile(fileId);
    status := 200;
  }

  /** The guards of addUserOrTeamToAccess up to and including the caller-admin check. */
  predicate GrantGuardsPass(files: map<FileId, File>, actor: Actor, fileId: FileId, role: Option<string>) {
    Truthy(role) && ParseFileRole(role.value).Some? && fileId in files &&
    DirectAdmin(files[fileId].access, actor.id) == Returns(true)
  }

  /** Every member of the team is a stored user (else `member._id` on a null populate throws). */
  predicate MembersStored(team: Team, users: map<UserId, User>) {
    forall i :: 0 <= i < |team.members| ==> team.members[i].member in users
  }

  /**
   * addUserOrTeamToAccess: role (400), file (404) and caller-admin (403)
   * checks; then a user grant is appended unless the user already has an
   * entry (400), or a team grant is expanded into member entries, which
   * throws (500) on a deleted member or an unguarded scan.
   */
  method AddUserOrTeamToAccess(db: Db, actor: Actor, fileId: FileId, userId: Option<UserId>,
                               teamId: Option<TeamId>, role: Option<string>)
    returns (status: int)
    requires db.Valid()
    modifies db
    ensures db.Valid()
    ensures db.users == old(db.users) && db.teams == old(db.teams)
    ensures status in {400, 403, 404, 200, 500}
    ensures !Truthy(role) ==> status == 400
    ensures Truthy(role) && ParseFileRole(role.value).None? ==> status == 400
    ensures Truthy(role) && ParseFileRole(role.value).Some? && fileId !in old(db.files) ==> status == 404
    ensures Truthy(role) && ParseFileRole(role.value).Some? && fileId in old(db.files) ==>
      (DirectAdmin(old(db.files)[fileId].access, actor.id).Throws? ==> status == 500) &&
      (DirectAdmin(old(db.files)[fileId].access, actor.id) == Returns(false) ==> status == 403)
    ensures status == 200 ==> GrantGuardsPass(old(db.files), actor, fileId, role)
    ensures GrantGuardsPass(old(db.files), actor, fileId, role) && userId.Some? ==>
      var access := old(db.files)[fileId].access;
      (AnyKeyIs(access, EntryMember, userId.value).Throws? ==> status == 500) &&
      (AnyKeyIs(access, EntryMember, userId.value) == Returns(true) ==> status == 400) &&
      (AnyKeyIs(access, EntryMember, userId.value) == Returns(false) ==> status == 200)
    ensures GrantGuardsPass(old(db.files), actor, fileId, role) && userId.None? && teamId.None? ==> status == 400
    ensures GrantGuardsPass(old(db.files), actor, fileId, role) && userId.None? && teamId.Some? ==>
      (teamId.value !in old(db.teams) ==> status == 404) &&
      (teamId.value in old(db.teams) ==>
        (status == 200 <==>
          MembersStored(old(db.teams)[teamId.value], old(db.users)) &&
          ExpandGrant(old(db.files)[fileId].access, MemberIds(old(db.teams)[teamId.value].members),
                      ParseFileRole(role.value).value, old(db.nextId)).Returns?) &&
        (status == 500 <==>
          !MembersStored(old(db.teams)[teamId.value], old(db.users)) ||
          ExpandGrant(old(db.files)[fileId].access, MemberIds(old(db.teams)[teamId.value].members),
                      ParseFileRole(role.value).value, old(db.nextId)).Throws?))
    ensures status == 200 && userId.Some? ==>
      var f := old(db.files)[fileId];
      db.files == old(db.files)[fileId := f.(access := f.access +
        [MemberGrant(userId.value, ParseFileRole(role.value).value, old(db.nextId))])]
    ensures status == 200 && userId.None? ==>
      var f := old(db.files)[fileId];
      teamId.Some? && teamId.value in old(db.teams) &&
      db.files == old(db.files)[fileId := f.(access :=
        ExpandGrant(f.access, MemberIds(old(db.teams)[teamId.value].members),
                    ParseFileRole(role.value).value, old(db.nextId)).value)]
    ensures status != 200 ==> db.files == old(db.files)
  {
    if !Truthy(role) {
      return 400;
    }
    var r := ParseFileRole(role.value);
    if r.None? {
      return 400;
    }
    if fileId !in db.files {
      return 404;
    }
    var f := db.files[fileId];
    var admin := DirectAdmin(f.access, actor.id);
    if admin.Throws? {
      return 500;
    }
    if !admin.value {
      return 403;
    }
    var n := db.nextId;
    if userId.Some? {
      var present := AnyKeyIs(f.access, EntryMember, userId.value);
      if present.Throws? {
        return 500;
      }
      if present.value {
        return 400;
      }
      db.SetFileAccess(fileId, f.access + [MemberGrant(userId.value, r.value, n)]);
      db.AdvanceTo(n + 1);
    } else if teamId.Some? {
      if teamId.value !in db.teams {
        return 404;
      }
      var team := db.teams[teamId.value];
      if !MembersStored(team, db.users) {
        return 500;
      }
      var grown, next := GrantToMembers(f.access, MemberIds(team.members), r.value, n);
      if grown.Throws? {
        return 500;
      }
      db.SetFileAccess(fileId, grown.value);
      db.AdvanceTo(next);
    } else {
      return 400;
    }
    status := 200;
  }

  /** removeUserOrTeamFromAccess: removes one entry by its id; the owner's entry is protected. */
  method RemoveUserOrTeamFromAccess(db: Db, actor: Actor, fileId: FileId, accessId: Option<AccessId>)
    returns (status: int)
    requires db.Valid()
    modifies db
    ensures db.Valid()
    ensures db.users == old(db.users) && db.teams == old(db.teams) && db.nextId == old(db.nextId)
    ensures status in {400, 403, 404, 200, 500}
    ensures accessId.None? ==> status == 400
    ensures accessId.Some? && fileId !in old(db.files) ==> status == 404
    ensures accessId.Some? && fileId in old(db.files) ==>
      var f := old(db.files)[fileId];
      var idx := IndexOfId(f.access, accessId.value);
      (idx.None? ==> status == 404) &&
      (idx.Some? && f.access[idx.value].member.None? ==> status == 500) &&
      (idx.Some? && f.access[idx.value].member == Some(f.owner) ==> status == 400) &&
      (idx.Some? && f.access[idx.value].member.Some? && f.access[idx.value].member != Some(f.owner) ==>
        (DirectAdmin(f.access, actor.id).Throws? ==> status == 500) &&
        (DirectAdmin(f.access, actor.id) == Returns(false) ==> status == 403) &&
        (DirectAdmin(f.access, actor.id) == Returns(true) ==> status == 200))
    ensures status == 200 ==>
      accessId.Some? && fileId in old(db.files) &&
      var f := old(db.files)[fileId];
      var idx := IndexOfId(f.access, accessId.value);
      idx.Some? && f.access[idx.value].member.Some? && f.access[idx.value].member != Some(f.owner) &&
      db.files == old(db.files)[fileId := f.(access := RemoveAt(f.access, idx.value))] &&
      OwnerEntries(db.files[fileId].access, f.owner) == OwnerEntries(f.access, f.owner)
    ensures status != 200 ==> db.files == old(db.files)
  {
    if accessId.None? {
      return 400;
    }
    if fileId !in db.files {
      return 404;
    }
    var f := db.files[fileId];
    var idx := IndexOfId(f.access, accessId.value);
    if idx.None? {
      return 404;
    }
    var entry := f.access[idx.value];
    if entry.member.None? {
      return 500;
    }
    if entry.member.value == f.owner {
      return 400;
    }
    var admin := DirectAdmin(f.access, actor.id);
    if admin.Throws? {
      return 500;
    }
    if !admin.value {
      return 403;
    }
    db.SetFileAccess(fileId, RemoveAt(f.access, idx.value));
    RemovalKeepsOwnerEntries(f.access, idx.value, f.owner);
    status := 200;
  }

  /** editAccess: sets the role of one entry found by its id; the owner's entry is not protected. */
  method EditAccess(db: Db, actor: Actor, fileId: FileId, accessId: Option<AccessId>, role: Option<string>)
    returns (status: int)
    requires db.Valid()
    modifies db
    ensures db.Valid()
    ensures db.users == old(db.users) && db.teams == old(db.teams) && db.nextId == old(db.nextId)
    ensures status in {400, 403, 404, 200, 500}
    ensures accessId.None? || !Truthy(role) || ParseFileRole(role.value).None? ==> status == 400
    ensures accessId.Some? && Truthy(role) && ParseFileRole(role.value).Some? ==>
      (fileId !in old(db.files) ==> status == 404) &&
      (fileId in old(db.files) ==>
        var f := old(db.files)[fileId];
        (DirectAdmin(f.access, actor.id).Throws? ==> status == 500) &&
        (DirectAdmin(f.access, actor.id) == Returns(false) ==> status == 403) &&
        (DirectAdmin(f.access, actor.id) == Returns(true) ==>
          (status == 404 <==> IndexOfId(f.access, accessId.value).None?) &&
          (IndexOfId(f.access, accessId.value).Some? ==> status == 200)))
    ensures status == 200 ==>
      accessId.Some? && Truthy(role) && ParseFileRole(role.value).Some? && fileId in old(db.files) &&
      var f := old(db.files)[fileId];
      var idx := IndexOfId(f.access, accessId.value);
      DirectAdmin(f.access, actor.id) == Returns(true) && idx.Some? && fileId in db.files &&
      var g := db.files[fileId];
      db.files == old(db.files)[fileId := g] && g.owner == f.owner && g.title == f.title &&
      g.content == f.content && g.kind == f.kind && |g.access| == |f.access| &&
      g.access[idx.value] == f.access[idx.value].(role := ParseFileRole(role.value)) &&
      forall j :: 0 <= j < |f.access| && j != idx.value ==> g.access[j] == f.access[j]
    ensures status != 200 ==> db.files == old(db.files)
  {
    if accessId.None? || !Truthy(role) {
      return 400;
    }
    var r := ParseFileRole(role.value);
    if r.None? {
      return 400;
    }
    if fileId !in db.files {
      return 404;
    }
    var f := db.files[fileId];
    var admin := DirectAdmin(f.access, actor.id);
    if admin.Throws? {
      return 500;
    }
    if !admin.value {
      return 403;
    }
    var idx := IndexOfId(f.access, accessId.value);
    if idx.None? {
      return 404;
    }
    var i := idx.value;
    db.SetFileAccess(fileId, f.access[i := f.access[i].(role := r)]);
    status := 200;
  }
}
