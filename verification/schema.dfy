/**
 * The three Mongoose schemas of the backend (File, Team, User) as Dafny
 * datatypes, the role and type enums, and the record invariants that a
 * `save` enforces (required fields, enum membership, unique fields).
 *
 * Object ids are natural numbers; strings are `seq<char>`. A field that a
 * request may omit is an `Option`; JavaScript truthiness of a string is
 * `Truthy` (missing and empty both count as false).
 */
module Schema {

  type UserId = nat
  type TeamId = nat
  type FileId = nat
  type AccessId = nat

  datatype Option<+T> = None | Some(value: T) {
    function GetOr(default: T): T {
      match this
      case Some(v) => v
      case None => default
    }
  }

  /** A request string field is truthy when present and non-empty. */
  predicate Truthy(s: Option<string>) {
    s.Some? && s.value != ""
  }

  /** `value || fallback` on strings. */
  function OrElse(s: Option<string>, fallback: Option<string>): (r: Option<string>)
    ensures Truthy(s) ==> r == s
    ensures !Truthy(s) ==> r == fallback
  {
    if Truthy(s) then s else fallback
  }

  // ---------------------------------------------------------------- File

  /** Role of a file access entry: enum ['editor', 'admin', 'viewer']. */
  datatype FileRole = Editor | Admin | Viewer

  function FileRoleName(r: FileRole): string {
    match r
    case Editor => "editor"
    case Admin => "admin"
    case Viewer => "viewer"
  }

  /** Casting a request string to the access-entry role enum. */
  function ParseFileRole(s: string): (r: Option<FileRole>)
    ensures r.Some? <==> s == "editor" || s == "admin" || s == "viewer"
    ensures r.Some? ==> FileRoleName(r.value) == s
  {
    if s == "editor" then Some(Editor)
    else if s == "admin" then Some(Admin)
    else if s == "viewer" then Some(Viewer)
    else None
  }

  /** File type enum ['personal', 'team']. */
  datatype FileType = Personal | TeamOwned

  /**
   * One access entry: an optional member, an optional team (the schema
   * forces neither, nor forbids both), an optional role, and the entry's
   * own sub-document id.
   */
  datatype AccessEntry = AccessEntry(
    id: AccessId,
    member: Option<UserId>,
    team: Option<TeamId>,
    role: Option<FileRole>)

  /** An access entry as it arrives in a request body, before the save casts it. */
  datatype AccessInput = AccessInput(
    member: Option<UserId>,
    team: Option<TeamId>,
    role: Option<string>)

  datatype File = File(
    title: string,
    content: string,
    owner: UserId,
    access: seq<AccessEntry>,
    kind: Option<FileType>)

  /** title and content are required strings (the owner is always an id). */
  predicate FileValid(f: File) {
    f.title != "" && f.content != ""
  }

  /** An input role passes the enum validator when absent or one of the enum values. */
  predicate InputRoleOk(role: Option<string>) {
    role.None? || ParseFileRole(role.value).Some?
  }

  function CastEntry(a: AccessInput, id: AccessId): (e: AccessEntry)
    requires InputRoleOk(a.role)
    ensures e.member == a.member && e.team == a.team && e.id == id
    ensures a.role.Some? ==> e.role.Some? && FileRoleName(e.role.value) == a.role.value
    ensures a.role.None? ==> e.role.None?
  {
    AccessEntry(id, a.member, a.team,
      if a.role.None? then None else ParseFileRole(a.role.value))
  }

  /**
   * Casting a request access list on save: every entry gets a fresh
   * sub-document id (first, first + 1, ...); an entry whose role is not in
   * the enum makes the whole save fail.
   */
  function CastAccess(inputs: seq<AccessInput>, first: nat): (r: Option<seq<AccessEntry>>)
    ensures r.Some? <==> forall i :: 0 <= i < |inputs| ==> InputRoleOk(inputs[i].role)
    ensures r.Some? ==> |r.value| == |inputs|
    ensures r.Some? ==> forall i :: 0 <= i < |inputs| ==>
      r.value[i].id == first + i && r.value[i].member == inputs[i].member && r.value[i].team == inputs[i].team
    decreases |inputs|
  {
    if inputs == [] then Some([])
    else if !InputRoleOk(inputs[0].role) then None
    else
      match CastAccess(inputs[1..], first + 1)
      case None => None
      case Some(rest) => Some([CastEntry(inputs[0], first)] + rest)
  }

  /** Each stored entry is the cast of the input at the same position, role included. */
  lemma CastAccessEntries(inputs: seq<AccessInput>, first: nat)
    requires CastAccess(inputs, first).Some?
    ensures forall i :: 0 <= i < |inputs| ==>
      InputRoleOk(inputs[i].role) && CastAccess(inputs, first).value[i] == CastEntry(inputs[i], first + i)
  {
  }

  // ---------------------------------------------------------------- Team

  /** Role of a team member: enum ['editor', 'admin', 'member'] (no 'viewer'). */
  datatype TeamRole = TeamEditor | TeamAdmin | TeamMember

  function TeamRoleName(r: TeamRole): string {
    match r
    case TeamEditor => "editor"
    case TeamAdmin => "admin"
    case TeamMember => "member"
  }

  /** Casting a string to the team-member role enum; "viewer" is refused. */
  function ParseTeamRole(s: string): (r: Option<TeamRole>)
    ensures r.Some? <==> s == "editor" || s == "admin" || s == "member"
    ensures r.Some? ==> TeamRoleName(r.value) == s
  {
    if s == "editor" then Some(TeamEditor)
    else if s == "admin" then Some(TeamAdmin)
    else if s == "member" then Some(TeamMember)
    else None
  }

  /** A team member record: member and role are both required. */
  datatype TeamMembership = TeamMembership(member: UserId, role: TeamRole)

  datatype Team = Team(
    name: Option<string>,
    logo: Option<string>,
    members: seq<TeamMembership>,
    files: seq<FileId>)

  // ---------------------------------------------------------------- User

  datatype Name = Name(first: Option<string>, middle: Option<string>, last: Option<string>)

  datatype User = User(
    name: Name,
    username: string,
    email: string,
    password: string,
    avatar: Option<string>,
    bio: Option<string>,
    teams: seq<TeamId>)

  /** username, email and password are required strings. */
  predicate UserValid(u: User) {
    u.username != "" && u.email != "" && u.password != ""
  }

  /** The unique indexes on username and email. */
  predicate UniqueAccounts(users: map<UserId, User>) {
    forall a, b :: a in users && b in users && a != b ==>
      users[a].username != users[b].username && users[a].email != users[b].email
  }
}
