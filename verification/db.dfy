/**
 * The MongoDB collections behind the three models, as one in-memory store:
 * users, teams and files keyed by object id, plus the source of fresh ids.
 * A handler's sequence of single-document saves becomes a sequence of map
 * updates on this object.
 */
module Database {
  import opened Schema

  /** The authenticated caller that `authverify` puts on `req.user`: its id and its `teams` list. */
  datatype Actor = Actor(id: UserId, teams: seq<TeamId>)

  class Db {
    var users: map<UserId, User>
    var teams: map<TeamId, Team>
    var files: map<FileId, File>
    /** Every object id below nextId may be taken; ids at or above it are fresh. */
    var nextId: nat

    /**
     * What every stored document satisfies because `save` validated it:
     * required fields present, username and email unique, and every key
     * below the fresh-id counter.
     */
    ghost predicate Valid()
      reads this
    {
      && (forall k :: k in users ==> k < nextId)
      && (forall k :: k in teams ==> k < nextId)
      && (forall k :: k in files ==> k < nextId)
      && (forall k :: k in users ==> UserValid(users[k]))
      && (forall k :: k in files ==> FileValid(files[k]))
      && UniqueAccounts(users)
    }

    constructor ()
      ensures Valid()
      ensures users == map[] && teams == map[] && files == map[] && nextId == 0
    {
      users, teams, files, nextId := map[], map[], map[], 0;
    }

    /** Saves a new team under a fresh id. */
    method InsertTeam(t: Team) returns (id: TeamId)
      requires Valid()
      modifies this
      ensures Valid()
      ensures id == old(nextId) && id !in old(teams) && nextId == id + 1
      ensures teams == old(teams)[id := t]
      ensures users == old(users) && files == old(files)
    {
      id := nextId;
      teams := teams[id := t];
      nextId := id + 1;
    }

    /**
     * Saves a new valid file under a fresh id; its `used` access entries
     * take the ids after it.
     */
    method InsertFile(f: File, used: nat) returns (id: FileId)
      requires Valid() && FileValid(f)
      modifies this
      ensures Valid()
      ensures id == old(nextId) && id !in old(files) && nextId == id + 1 + used
      ensures files == old(files)[id := f]
      ensures users == old(users) && teams == old(teams)
    {
      id := nextId;
      files := files[id := f];
      nextId := id + 1 + used;
    }

    /** Saves a new valid team file under a fresh id and appends the id to its team's files. */
    method InsertTeamFile(f: File, used: nat, t: TeamId) returns (id: FileId)
      requires Valid() && FileValid(f) && t in teams
      modifies this
      ensures Valid()
      ensures id == old(nextId) && id !in old(files) && nextId == id + 1 + used
      ensures files == old(files)[id := f]
      ensures teams == old(teams)[t := old(teams)[t].(files := old(teams)[t].files + [id])]
      ensures users == old(users)
    {
      id := nextId;
      files := files[id := f];
      teams := teams[t := teams[t].(files := teams[t].files + [id])];
      nextId := id + 1 + used;
    }

    /** Saves a stored file with new valid contents. */
    method SetFile(id: FileId, f: File)
      requires Valid() && id in files && FileValid(f)
      modifies this
      ensures Valid()
      ensures files == old(files)[id := f]
      ensures users == old(users) && teams == old(teams) && nextId == old(nextId)
    {
      files := files[id := f];
    }

    /** Deletes a stored file. */
    method RemoveFile(id: FileId)
      requires Valid()
      modifies this
      ensures Valid()
      ensures files == old(files) - {id}
      ensures users == old(users) && teams == old(teams) && nextId == old(nextId)
    {
      files := files - {id};
    }

    /** Marks the ids below `next` as taken, as the sub-documents of a save do. */
    method AdvanceTo(next: nat)
      requires Valid() && nextId <= next
      modifies this
      ensures Valid()
      ensures nextId == next
      ensures users == old(users) && teams == old(teams) && files == old(files)
    {
      nextId := next;
    }

    /** Saves a stored file with a new access list; nothing else changes. */
    method SetFileAccess(id: FileId, access: seq<AccessEntry>)
      requires Valid() && id in files
      modifies this
      ensures Valid()
      ensures files == old(files)[id := old(files)[id].(access := access)]
      ensures users == old(users) && teams == old(teams) && nextId == old(nextId)
    {
      files := files[id := files[id].(access := access)];
    }

    /** Saves a stored team with new contents. */
    method SetTeam(id: TeamId, t: Team)
      requires Valid() && id in teams
      modifies this
      ensures Valid()
      ensures teams == old(teams)[id := t]
      ensures users == old(users) && files == old(files) && nextId == old(nextId)
    {
      teams := teams[id := t];
    }

    /** Saves a stored user with a new `teams` list; nothing else changes. */
    method SetUserTeams(k: UserId, ts: seq<TeamId>)
      requires Valid() && k in users
      modifies this
      ensures Valid()
      ensures users == old(users)[k := old(users)[k].(teams := ts)]
      ensures teams == old(teams) && files == old(files) && nextId == old(nextId)
    {
      users := users[k := users[k].(teams := ts)];
    }
  }
}
