/**
 * Scans and filters over a team's `members` list, as the team and file
 * handlers write them. A member record always has its `member` field (the
 * schema requires it), so these scans never throw.
 */
module Membership {
  import opened Schema
  import opened Lists

  /** `team.members.find(m => m.member.toString() === u.toString())`: the first record for u. */
  function FindMember(members: seq<TeamMembership>, u: UserId): (r: Option<nat>)
    ensures r.Some? ==> (r.value < |members| && members[r.value].member == u &&
      forall j :: 0 <= j < r.value ==> members[j].member != u)
    ensures r.None? ==> forall j :: 0 <= j < |members| ==> members[j].member != u
    decreases |members|
  {
    if |members| == 0 then None
    else if members[0].member == u then Some(0)
    else
      match FindMember(members[1..], u)
      case None => None
      case Some(i) => Some(i + 1)
  }

  /** `...find(...)?.role`: the role of u's first record, undefined when u has none. */
  function RoleOf(members: seq<TeamMembership>, u: UserId): (r: Option<TeamRole>)
    ensures r.Some? <==> exists i :: 0 <= i < |members| && members[i].member == u
  {
    match FindMember(members, u)
    case None => None
    case Some(i) => Some(members[i].role)
  }

  /** The role reported is that of u's first record: records listed after it are not consulted. */
  lemma RoleOfFirstRecord(members: seq<TeamMembership>, u: UserId)
    ensures RoleOf(members, u).Some? ==>
      exists i :: 0 <= i < |members| && members[i].member == u &&
                  (forall j :: 0 <= j < i ==> members[j].member != u) && RoleOf(members, u).value == members[i].role
  {
    if RoleOf(members, u).Some? {
      var i := FindMember(members, u).value;
      assert RoleOf(members, u).value == members[i].role;
    }
  }

  /** `team.members.some(m => m.member === u && m.role === 'admin')`: any record of u is an admin record. */
  predicate IsAdmin(members: seq<TeamMembership>, u: UserId) {
    exists i :: 0 <= i < |members| && members[i].member == u && members[i].role == TeamAdmin
  }

  predicate IsMember(members: seq<TeamMembership>, u: UserId) {
    exists i :: 0 <= i < |members| && members[i].member == u
  }

  /**
   * updateMemberRoleInTeam reads the first record's role while updateTeam
   * and deleteTeam accept any admin record: the first test implies the
   * second ...
   */
  lemma FirstAdminIsAdmin(members: seq<TeamMembership>, u: UserId)
    requires RoleOf(members, u) == Some(TeamAdmin)
    ensures IsAdmin(members, u)
  {
    var i := FindMember(members, u).value;
    assert members[i].member == u && members[i].role == TeamAdmin;
  }

  /** ... but not conversely, when a member is listed twice. */
  lemma LaterAdminRecordIgnored(u: UserId)
    ensures var members := [TeamMembership(u, TeamMember), TeamMembership(u, TeamAdmin)];
      IsAdmin(members, u) && RoleOf(members, u) == Some(TeamMember)
  {
    var members := [TeamMembership(u, TeamMember), TeamMembership(u, TeamAdmin)];
    assert members[1].member == u && members[1].role == TeamAdmin;
    assert FindMember(members, u) == Some(0);
  }

  /** The ids of the members, in list order. */
  function MemberIds(members: seq<TeamMembership>): (r: seq<UserId>)
    ensures |r| == |members|
    ensures forall i :: 0 <= i < |members| ==> r[i] == members[i].member
  {
    seq(|members|, i requires 0 <= i < |members| => members[i].member)
  }

  /** `team.members.filter(m => !ids.includes(m.member.toString()))`. */
  function WithoutMembers(members: seq<TeamMembership>, ids: seq<UserId>): seq<TeamMembership> {
    Filter(members, (m: TeamMembership) => m.member !in ids)
  }

  /**
   * After removal no requested id is a member, and every record of a member
   * who was not requested is still there.
   */
  lemma WithoutMembersSpec(members: seq<TeamMembership>, ids: seq<UserId>)
    ensures forall u :: u in ids ==> !IsMember(WithoutMembers(members, ids), u)
    ensures forall i :: 0 <= i < |members| && members[i].member !in ids ==>
      members[i] in WithoutMembers(members, ids)
  {
  }
}
