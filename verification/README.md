# Document sharing and team model of the collaborative editor backend

This project is a Dafny model of the Express/Mongoose backend of a
collaborative document editor. It covers three parts:

- **Files.** Each file has an ordered access list. An entry names a member, a
  team or both, and carries a role (`editor`, `admin`, `viewer`) and its own id.
- **Teams.** Each team has member records, each with a team role (`editor`,
  `admin`, `member`), and a list of file ids.
- **Users.** Each user has a unique username and a unique email, and a list
  of team ids.

The three collections live in one store, the class `Database.Db`. It holds
three maps keyed by object id and a counter for fresh ids. `Db.Valid()` is the
invariant that Mongoose validation maintains:

- required fields are present;
- usernames and emails are unique;
- every key is below the counter.

Every HTTP handler of the three controllers is a method. It takes the store,
the caller (`req.user`: its id and its `teams` list) and the request fields.
It returns the status code of the `responseHandler` call it reaches.

Some JavaScript expressions throw: an unguarded `.member.toString()` or
`.team.toString()` on an entry without that field, `.some` on a query document,
assignment to a `const`, or reading `user.Name`. These become the 500 that the
handler's `catch` sends. Scans are evaluated in list order, so an earlier match
stops the scan before a later keyless entry. The datatype `AccessList.Eval`
(`Returns(v)` or `Throws`) carries this.

A failed `save` validation also returns 500. Examples are an empty required
string, an access role outside the enum, or the team role `viewer`.

`populate` is modelled where a handler depends on it. A populated reference
to a user or team that is no longer stored comes back null
(`AccessList.Populated`). So getFileById ignores entries for deleted members
and deleted teams, and deleteFile throws when the file's owner was deleted.

Modules:

- `Schema`: the records of `file.js`, `team.js` and `user.js`, their enums, and
  the casting of request access lists into stored entries.
- `Lists`: `Filter`, `Without` and `RemoveAt` on sequences, with their algebra.
- `AccessList`: the first-match scans over access lists, and the read, update
  and delete permission checks built from them. It also defines the owner's
  entries and the expansion of a team grant into member entries.
- `Membership`: the scans and filters over a team's member records.
- `Database`: the store.
- `FilesController`, `TeamController`, `UserController`: the handlers.

Five team and user handlers cannot reach their success path as written. Each
is modelled as written, and the behaviour it evidently intends is a separate
method named `...Intended`. The details are under "Findings".

In one place the behaviour described for the system differs from the code.
That description resolves a caller's file role as the highest role among
their entries, while the code uses the first direct entry and then the first
team entry. The model follows the code (`AccessList.MayUpdate`,
`AccessList.FirstDirectEntryDecides`).

## Model

| member | source | states |
|---|---|---|
| Schema.ParseFileRole | Backend/src/models/file.js:6 | accepts exactly `editor`, `admin`, `viewer`, and maps each back to its own name |
| Schema.CastAccess | Backend/src/models/file.js:4-6 | a request access list is stored only if every role is absent or in the enum; the stored list has one entry per input, with the input's member and team and ids first, first + 1, … |
| Schema.CastAccessEntries | Backend/src/models/file.js:4-6 | when the list is stored, every input role is valid and entry i is the cast of input i with id first + i: member and team kept, role parsed from its enum name |
| Schema.ParseTeamRole | Backend/src/models/team.js:5 | accepts exactly `editor`, `admin`, `member`, so `viewer` is refused |
| Lists.Filter | Backend/src/controllers/teamController.js:164 | the result is no longer than the input; every element that passes is kept and only those are kept. Order is stated by `FilterAppend` and multiplicities by `FilterPartition` |
| Lists.FilterAppend | Backend/src/controllers/teamController.js:422-430 | filtering distributes over concatenation |
| Lists.FilterKeepsAll | Backend/src/controllers/teamController.js:164 | filtering a list whose elements all pass returns it unchanged |
| Lists.FilterIdempotent | Backend/src/controllers/teamController.js:174 | filtering twice with the same test is filtering once |
| Lists.FilterPartition | Backend/src/controllers/teamController.js:422-430 | a test and its complement split a list: the lengths add up and the multisets sum to the input |
| Lists.FilterSnoc | Backend/src/controllers/teamController.js:422-430 | filtering a list with one more element at the end appends that element exactly when it passes |
| Lists.WithoutTwice | Backend/src/controllers/teamController.js:174 | pulling a value twice is pulling it once |
| Lists.WithoutSpec | Backend/src/controllers/filesController.js:295 | after pulling x, x is absent and every other element is still present |
| Lists.RemoveAt | Backend/src/controllers/filesController.js:420 | `splice(i, 1)`: one element shorter; elements before i are kept, and those after shift down by one |
| Lists.RemoveAtRejected | Backend/src/controllers/filesController.js:420 | removing an element that fails a test leaves the filtered list unchanged |
| AccessList.FirstKeyMatch | Backend/src/controllers/filesController.js:398 | an unguarded first-match scan returns the first index whose key matches, or none when every key is present and differs, or throws when a keyless element comes before any match |
| AccessList.AnyKeyIs | Backend/src/controllers/filesController.js:342 | the unguarded `.some` throws exactly when the scan throws; otherwise it is true iff some element's key matches |
| AccessList.AppendKeyed | Backend/src/controllers/filesController.js:20-21 | appending an element that has a key never introduces a throw, and never changes an earlier match |
| AccessList.DirectAdmin | Backend/src/controllers/filesController.js:335-336 | the admin check throws iff the member scan throws; otherwise it is true iff the caller's first direct entry is an admin entry |
| AccessList.FirstDirect | Backend/src/controllers/filesController.js:208-210 | the first entry naming the caller as member, skipping entries without a member |
| AccessList.FirstTeamGrant | Backend/src/controllers/filesController.js:245-247 | the first entry whose team is one of the caller's teams |
| AccessList.DirectRole | Backend/src/controllers/filesController.js:208-210 | the reported `userRole` is the role of the caller's first direct entry, and null when no entry names the caller |
| AccessList.ReadOnlyViaTeam | Backend/src/controllers/filesController.js:197-210 | a caller with read access and no direct entry is admitted by a team grant, and their `userRole` is null |
| AccessList.UpdateImpliesRead | Backend/src/controllers/filesController.js:197-201 | on one and the same list, whoever passes the update check also passes the read test |
| AccessList.Live | Backend/src/controllers/filesController.js:189-190 | a populated reference is null exactly when it was absent or its document is no longer stored, and otherwise unchanged |
| AccessList.Populated | Backend/src/controllers/filesController.js:189-190 | populating an access list keeps each entry's id and role, and nulls members and teams no longer stored |
| AccessList.PopulatedLive | Backend/src/controllers/filesController.js:189-190 | a list whose members and teams are all stored comes back from populate unchanged |
| AccessList.UpdateImpliesReadWhenStored | Backend/src/controllers/filesController.js:189-201 | when the caller and every team the stored list names are stored, whoever passes the update check on the stored list passes the read check on the populated list |
| AccessList.UpdateWithoutReadAfterTeamDeleted | Backend/src/controllers/filesController.js:197-201 | an editor grant for a deleted team still passes the update check but no longer passes the read check |
| AccessList.FirstDirectEntryDecides | Backend/src/controllers/filesController.js:242-252 | only the first direct entry counts: with a viewer entry and then an editor entry for the same member, update is refused |
| AccessList.UnguardedAgrees | Backend/src/controllers/filesController.js:284 | when the unguarded member scan returns, it finds the same entry as the guarded one |
| AccessList.IndexOfId | Backend/src/controllers/filesController.js:398 | the index of the first entry with the given id, or none when no entry has it |
| AccessList.RemovalKeepsOwnerEntries | Backend/src/controllers/filesController.js:406-420 | removing an entry that does not name the owner keeps all of the owner's entries, in order |
| AccessList.ExpandShape | Backend/src/controllers/filesController.js:356-362 | a team grant keeps the existing list and appends only member entries. Each has the requested role, a fresh id and a member from the team, and no earlier entry names that member; afterwards every team member has an entry |
| AccessList.ExpandThrows | Backend/src/controllers/filesController.js:356-362 | a team grant throws exactly when some member's scan of the original list throws |
| AccessList.GrantToMembers | Backend/src/controllers/filesController.js:356-362 | the `forEach` loop computes the expansion, and advances the fresh-id counter by one per pushed entry |
| Membership.FindMember | Backend/src/controllers/teamController.js:220 | the index of the first member record for the user, or none when there is none |
| Membership.RoleOf | Backend/src/controllers/teamController.js:212-214 | a role is reported exactly when the user has a member record |
| Membership.RoleOfFirstRecord | Backend/src/controllers/teamController.js:212-214 | the reported role is that of the user's first member record |
| Membership.FirstAdminIsAdmin | Backend/src/controllers/teamController.js:212-217 | a caller admitted by the first-record admin check is also admitted by the any-record check (lines 254-256) |
| Membership.LaterAdminRecordIgnored | Backend/src/controllers/teamController.js:212-217 | the converse fails: a member listed first as `member` and then as `admin` passes the any-record check but not the first-record check |
| Membership.MemberIds | Backend/src/controllers/filesController.js:356-357 | the member ids of the records, in order |
| Membership.WithoutMembersSpec | Backend/src/controllers/teamController.js:164 | after the filter no requested id is a member, and every record of an unrequested member survives |
| Database.Db.InsertTeam | Backend/src/controllers/teamController.js:53-56 | saving a new team under a fresh id keeps the store valid and changes nothing else |
| Database.Db.SetTeam | Backend/src/controllers/teamController.js:109 | saving a stored team changes only that team |
| Database.Db.SetUserTeams | Backend/src/controllers/teamController.js:116-118 | saving a user's `teams` changes only that field and keeps usernames and emails unique |
| FilesController.SeedPersonal | Backend/src/controllers/filesController.js:18-26 | with no list, the seed is [caller admin]. A supplied list is kept as a prefix, and the caller is appended as admin exactly when the scan finds no entry for them. The scan throws on a keyless entry met before the caller's |
| FilesController.SeedTeam | Backend/src/controllers/filesController.js:78-92 | with no list, the seed is [caller admin, team admin]. Otherwise the supplied list is a prefix, and afterwards both the caller and the team have an entry |
| FilesController.SeedTeamSpec | Backend/src/controllers/filesController.js:78-92 | a supplied list throws iff the personal seeding or the team scan of its result throws; otherwise the seed is the personal seed with the team admin entry appended exactly when no entry names the team |
| FilesController.SeedTeamThrowsWithoutTeamEntry | Backend/src/controllers/filesController.js:80-85 | a supplied list of member entries that names neither the caller nor the team makes creation throw: the team scan reaches the caller's appended entry, which has no team |
| FilesController.NewFile | Backend/src/models/file.js:11-16 | a file is stored iff title and content are non-empty and every access role is in the enum; it is owned by the caller and has the given type |
| FilesController.PersonalSeedCast | Backend/src/controllers/filesController.js:18-42 | a personal file saved from its seed lists the caller, and one saved from the default seed lists exactly the caller as admin |
| FilesController.CreatePersonalFile | Backend/src/controllers/filesController.js:7-50 | 400 iff no title; 201 iff the seed does not throw and the file validates, storing it under a fresh id with the seeded entries, among them one for the caller, and with no list supplied exactly the caller as admin; otherwise 500 and nothing stored |
| FilesController.DefaultTeamSeedCast | Backend/src/controllers/filesController.js:88-91 | the default team seed casts to exactly two admin entries, the caller's and the team's, with consecutive ids, and a team file saved from it has that list |
| FilesController.SaveTeamFile | Backend/src/controllers/filesController.js:99-124 | 201 iff the file validates; then the file is stored under the next id and that id is appended to the team's `files`; otherwise nothing changes |
| FilesController.CreateTeamFile | Backend/src/controllers/filesController.js:55-129 | 400 iff neither title nor team; 404 for an unknown team; 401 unless the caller's team role is admin or editor. On 201 the file is stored and its id appended to `team.files`; otherwise nothing changes |
| FilesController.GetFileById | Backend/src/controllers/filesController.js:182-220 | on the populated access list: 404 for an unknown file; 403 iff no entry names the caller or one of their teams; otherwise the populated file with the role of the caller's first direct entry |
| FilesController.UpdateFile | Backend/src/controllers/filesController.js:225-267 | 400 iff title, content and access are all falsy; 404; 403 unless the first direct or the first team entry is admin or editor. On 200 only the truthy fields change, and access is replaced wholesale |
| FilesController.MayDelete | Backend/src/controllers/filesController.js:277-288 | an owner no longer stored throws; otherwise the owner may always delete, and anyone else needs the first direct entry to be admin, and that scan may throw. Passing requires ownership or an admin entry |
| FilesController.DeleteFile | Backend/src/controllers/filesController.js:272-308 | 404, 500 or 403 as `MayDelete` decides. On 200 the file is gone, and a team file's id is pulled from the team holding it |
| FilesController.AddUserOrTeamToAccess | Backend/src/controllers/filesController.js:313-375 | checks in order: role present and in the enum (400), file exists (404), caller is direct admin (403). A user already present gives 400 and no change; a team grant appends the expansion, and gives 500 exactly when a team member is no longer stored or the expansion throws; no user and no team gives 400 |
| FilesController.RemoveUserOrTeamFromAccess | Backend/src/controllers/filesController.js:380-436 | 400 without an access id; 404 for an unknown file or entry; 400 when the entry names the owner, checked before the caller's admin check (403). On 200 exactly the found entry is removed and the owner's entries are kept |
| FilesController.EditAccess | Backend/src/controllers/filesController.js:441-490 | 400, 404 and 403 in source order; 200 whenever the entry is found; on 200 only the matched entry's role changes, with no owner protection |
| TeamController.ElementsCount | Backend/src/controllers/teamController.js:29-30 | a list has at least as many entries as distinct ids, and exactly as many iff no id repeats |
| TeamController.AllFoundMeans | Backend/src/controllers/teamController.js:29-32 | the count check passes iff every requested id is a stored user and no id repeats |
| TeamController.CreateTeam | Backend/src/controllers/teamController.js:8-63 | as written: 400 without a name; 500 without a member list; 400 iff the count check fails; otherwise 500 at the `const` reassignment. No team is ever stored |
| TeamController.IntendedMembers | Backend/src/controllers/teamController.js:34-50 | the caller's records are admin and all others are plain members; every requested id is a member; the caller is appended iff absent; the caller's first record is admin |
| TeamController.CreateTeamIntended | Backend/src/controllers/teamController.js:8-63 | 400 without a name or when the count check fails; otherwise 201 with a new team holding `IntendedMembers` and no files |
| TeamController.AddMembersToTeam | Backend/src/controllers/teamController.js:68-128 | as written: 400 iff the list is missing or empty; 404 iff the team is unknown; otherwise 500 at `.some` on a query document |
| TeamController.AddOnce | Backend/src/controllers/teamController.js:116-118 | after the push the team id is present, the old list is a prefix, and at most one element was added |
| TeamController.NewMemberships | Backend/src/controllers/teamController.js:105 | one record per requested id, in order, with the given role |
| TeamController.AddMembersIntended | Backend/src/controllers/teamController.js:68-128 | 400, 404, 401 for a non-admin, 400 for invalid or already-present ids. On 200 the members are appended, and each requested user's `teams` gains the team id once; other users are unchanged |
| TeamController.Linked | Backend/src/controllers/teamController.js:112-121 | every listed stored user has gained the team id once, every other user is unchanged, and no user is added |
| TeamController.LinkedStep | Backend/src/controllers/teamController.js:112-121 | linking one more id adds the team id to that user's current `teams` unless it is already there |
| TeamController.LinkUsers | Backend/src/controllers/teamController.js:112-121 | the loop gives each listed user the team id once, even when an id is listed twice, and leaves other users unchanged |
| TeamController.RemoveMembersFromTeam | Backend/src/controllers/teamController.js:133-184 | as written: 400 iff the list is missing or empty; 404 iff the team is unknown; otherwise 500 at `.some` on a query document |
| TeamController.RemoveMembersIntended | Backend/src/controllers/teamController.js:133-184 | 400, 404, 401, 400 for a non-member. On 200 no requested id remains a member, and the team id leaves every requested stored user's `teams` |
| TeamController.Unlinked | Backend/src/controllers/teamController.js:170-177 | every listed stored user has lost the team id from `teams`, every other user is unchanged, and no user is added |
| TeamController.UnlinkedStep | Backend/src/controllers/teamController.js:170-177 | unlinking one more id pulls the team id from that user's current `teams`, also when the id was listed before |
| TeamController.UnlinkUsers | Backend/src/controllers/teamController.js:170-177 | the loop removes the team id from each listed stored user's `teams` and leaves other users unchanged |
| TeamController.UpdateMemberRoleInTeam | Backend/src/controllers/teamController.js:189-236 | 400 without a member id or role, or a role outside {admin, editor, viewer}; 404 team; 403 unless the caller's first record is admin; 404 unknown member; 500 for `viewer` (team enum) and 200 for any other allowed role; on 200 only the first record of that member changes role |
| TeamController.UpdateTeam | Backend/src/controllers/teamController.js:242-275 | 404; 401 unless some record of the caller is admin; on 200 name and logo change only when truthy |
| TeamController.DeleteTeam | Backend/src/controllers/teamController.js:313-339 | 404; 401 unless admin; on 200 only the team record is removed, and files and users are untouched |
| TeamController.CheckTeamEntriesSpec | Backend/src/controllers/teamController.js:375-380 | when the access check loop does not throw, it accepts iff every requested file has an entry for the team |
| TeamController.StripTeam | Backend/src/controllers/teamController.js:388 | the filter throws iff some entry has no team. Otherwise it drops exactly the team's entries |
| TeamController.StripAllSpec | Backend/src/controllers/teamController.js:386-391 | a run of saves that completes leaves no entry for the team on any requested file, and changes only the access lists of requested files |
| TeamController.GuardedStripCompletes | Backend/src/controllers/teamController.js:388 | with the guarded test the run of saves never throws |
| TeamController.SaveStripped | Backend/src/controllers/teamController.js:386-391 | the save loop performs the run of saves in request order and stops at the first throw, keeping earlier saves |
| TeamController.RemoveFilesFromTeam | Backend/src/controllers/teamController.js:349-356 | as written: 400 for a missing or empty list, 404 for an unknown team, and 500 for every stored team, because populating `files` goes through the unregistered model 'Files' (team.js:14); nothing changes |
| TeamController.RemoveFilesWithRefFixed | Backend/src/controllers/teamController.js:344-403 | with only the ref corrected: 400 for a missing or empty list; 404 team; 403 unless admin or editor; 404 for an unknown file. The access check gives 500 or 403 before any change. Then the run of saves gives 500 exactly when it throws, else 200; `team.files` is never changed |
| TeamController.RemoveFilesIntended | Backend/src/controllers/teamController.js:344-403 | the ref names the file model, and the same guards apply; a file without an entry for the team gives 403. On 200 the team lists none of the files, and no requested file keeps an entry for the team: both sides of the link are gone |
| TeamController.GetTeamSuggestions | Backend/src/controllers/teamController.js:419-430 | the two lists are the found teams that pass and that fail the membership test, each in found order, and together a permutation of the found teams |
| UserController.NewUser | Backend/src/controllers/userController.js:37-47 | the record is saved iff username, email and the hash are non-empty; it holds the hash, not the password |
| UserController.InsertKeepsUnique | Backend/src/models/user.js:9-10 | inserting a user whose username and email nobody holds keeps both unique |
| UserController.CreateUser | Backend/src/controllers/userController.js:9-54 | checks in order: username-or-email (400), clash (400), password (500), first name (400); then 201 iff the record validates, else 500. On 201 the stored name is {first, middle or '', last or ''} and the password is the hash; otherwise nothing is stored |
| UserController.GetUserById | Backend/src/controllers/userController.js:85-100 | 404 iff the id is not stored; otherwise the stored record |
| UserController.UpdateUser | Backend/src/controllers/userController.js:124-167 | as written: 404 iff unknown; 400 iff the email or the username is changed to one already held; otherwise 500 at `user.Name` |
| UserController.Updated | Backend/src/controllers/userController.js:151-157 | the updated record stays valid and keeps password and teams; each of the name parts, username, email, avatar and bio takes the new value when it is given and non-empty, and keeps the old one otherwise |
| UserController.UpdateKeepsUnique | Backend/src/controllers/userController.js:136-148 | an update that passes both clash checks keeps usernames and emails unique |
| UserController.UpdateUserIntended | Backend/src/controllers/userController.js:124-167 | same 404 and 400 cases; on 200 the stored record is the field-wise update |
| UserController.DeleteUser | Backend/src/controllers/userController.js:172-187 | 404 iff unknown; on 200 only the user record is removed |

## Left out

- Login, password comparison and JWT issue (`userController.js:192-225`) and the auth middleware: library crypto. The caller is a parameter, and hashing is the function parameter `hash`.
- getAllFiles, getPersonalFiles, getAllTeams, getTeamById, getAllUsers, getUserByUsername, checkUserLogin and getCurrenUser: read-only queries outside the sharing model.
- The socket relay in `index.js` and the `accessRemoved` emit: transport. `req.io` is never set, so the emit never fires.
- `populate` in the read-only queries and in the team handlers' responses is not modelled. Where a populated reference decides a status (getFileById, deleteFile, the team grant expansion and removeFilesFromTeam), it is modelled.
- Cast errors on request ids that are not object ids are not modelled. Ids are natural numbers.
- Mongo query semantics for an absent field: `UserController.Taken` lets an absent username or email match no user.
- The regex name search of getTeamSuggestions is done before the call. The found teams are an input.
- GetTeamSuggestions: the membership test is a parameter. As written, `team.members.includes(userId)` compares the user id with member records rather than their `member` field.
- RemoveFilesWithRefFixed: the fetched files are visited in request order, once per request element. The store returns them in its own order, once each, so when both a 403 and a 500 are reachable the reported one may differ.
- Saves run one after another: the `Promise.all` of `removeFilesFromTeam` is a sequence, and a failure between two saves of one handler is not modelled.
- The model does not state that access entry ids are unique within a file. Fresh ids come from the store's counter, and a wholesale access replacement in updateFile takes fresh ids too.
- CastAccess: a request access entry that carries its own `_id` keeps that id when Mongoose casts it; the model gives every cast entry a counter id, so such client-chosen ids are not modelled.
- Timestamps and `updatedAt` fields are not modelled.
- UpdateMemberRoleInTeam: no corrected version. The only defect is that `viewer` is accepted by the handler but refused by the team enum, and the model states that as a 500.

## Findings

| source | as written | input that shows it | evidently intended | confidence | as-written member | corrected member |
|---|---|---|---|---|---|---|
| Backend/src/controllers/teamController.js:23,35 | line 23 pushes the caller onto a missing `members` list, which throws; line 35 reassigns the `const members` from line 10, which throws; line 40 would also give the other members the role `viewer`, which the team enum (team.js:5) refuses | name "T", members [] (line 35); name "T" and no members (line 23) | a missing list treated as empty, caller admin, other members plain members, caller appended if absent, team stored | high, not executed | TeamController.CreateTeam | TeamController.CreateTeamIntended |
| Backend/src/controllers/teamController.js:84-85 | calls `.some` on a Team document, which throws; new members would also be saved with role `viewer`, outside the team enum (line 105) | an existing team and members [u] for a stored user u | admin check on `team.members`; members appended with the lowest team role; each user's `teams` gains the team once | high, not executed | TeamController.AddMembersToTeam | TeamController.AddMembersIntended |
| Backend/src/controllers/teamController.js:149-150 | calls `.some` on a Team document, which throws | an existing team and members [u] | admin check on `team.members`; requested records removed; team id pulled from each user's `teams` | high, not executed | TeamController.RemoveMembersFromTeam | TeamController.RemoveMembersIntended |
| Backend/src/controllers/userController.js:151 | reads `user.Name.first_name`, but the schema field is `name`, which throws | any stored id with no clashing email or username | field-wise update of name parts, username, email, avatar and bio | high, not executed | UserController.UpdateUser | UserController.UpdateUserIntended |
| Backend/src/controllers/teamController.js:354 | `populate('files')` follows the ref 'Files' (team.js:14), but the file model is registered as 'File' (file.js:22), so the query rejects | any stored team and a non-empty file list | populate through the registered file model, then check and strip | medium, not executed | TeamController.RemoveFilesFromTeam | TeamController.RemoveFilesIntended |
| Backend/src/controllers/teamController.js:383,388 | with the ref corrected, compares populated file documents by `toString()`, so `team.files` keeps every id; `access.team.toString()` throws on member-only entries | a file whose access list holds an entry for the caller (member only) and an entry for the team | the file ids leave `team.files`, and only the team's entries leave each file's access list | medium, not executed | TeamController.RemoveFilesWithRefFixed | TeamController.RemoveFilesIntended |
