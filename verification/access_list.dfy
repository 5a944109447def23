/**
 * Scans over a file's access list, as the file handlers write them.
 *
 * Two kinds of scan occur. Guarded ones (`permission.member && ...`,
 * `permission.member?.toString()`) skip entries lacking the field. Unguarded
 * ones (`permission.member.toString() === id`) throw a TypeError on the
 * first entry, in list order, that lacks the field, unless a match came
 * earlier; the enclosing `catch` turns that into a 500.
 */
module AccessList {
  import opened Schema
  import opened Lists

  /** Evaluating a JavaScript expression: a value, or a thrown TypeError. */
  datatype Eval<+T> = Returns(value: T) | Throws

  function EntryMember(e: AccessEntry): Option<nat> { e.member }
  function EntryTeam(e: AccessEntry): Option<nat> { e.team }
  function InputMember(a: AccessInput): Option<nat> { a.member }
  function InputTeam(a: AccessInput): Option<nat> { a.team }

  /** An element the unguarded scan for x steps over: its key is present and differs. */
  predicate Passes(k: Option<nat>, x: nat) {
    k.Some? && k.value != x
  }

  /**
   * `s.findIndex(e => e.key.toString() === x.toString())` where a missing key
   * throws: the index of the first element whose key is x, none when every
   * key is present and differs, and a throw when a keyless element comes
   * first.
   */
  function FirstKeyMatch<E>(s: seq<E>, key: E -> Option<nat>, x: nat): (r: Eval<Option<nat>>)
    ensures r.Returns? && r.value.Some? ==>
      r.value.value < |s| && key(s[r.value.value]) == Some(x) &&
      forall j :: 0 <= j < r.value.value ==> Passes(key(s[j]), x)
    ensures r == Returns(None) ==> forall j :: 0 <= j < |s| ==> Passes(key(s[j]), x)
    ensures r.Throws? ==>
      exists k :: 0 <= k < |s| && key(s[k]).None? && forall j :: 0 <= j < k ==> Passes(key(s[j]), x)
    decreases |s|
  {
    if |s| == 0 then Returns(None)
    else if key(s[0]).None? then Throws
    else if key(s[0]).value == x then Returns(Some(0))
    else
      match FirstKeyMatch(s[1..], key, x)
      case Throws => Throws
      case Returns(None) => Returns(None)
      case Returns(Some(i)) => Returns(Some(i + 1))
  }

  /** `s.some(e => e.key.toString() === x.toString())` with the same throwing rule. */
  function AnyKeyIs<E>(s: seq<E>, key: E -> Option<nat>, x: nat): (r: Eval<bool>)
    ensures r.Throws? <==> FirstKeyMatch(s, key, x).Throws?
    ensures r.Returns? ==> (r.value <==> exists i :: 0 <= i < |s| && key(s[i]) == Some(x))
  {
    match FirstKeyMatch(s, key, x)
    case Throws => Throws
    case Returns(i) => Returns(i.Some?)
  }

  /**
   * Appending an element that has a key never makes the scan throw and
   * never changes a match found earlier.
   */
  lemma AppendKeyed<E>(s: seq<E>, e: E, key: E -> Option<nat>, x: nat)
    requires key(e).Some?
    ensures FirstKeyMatch(s, key, x).Throws? ==> FirstKeyMatch(s + [e], key, x).Throws?
    ensures FirstKeyMatch(s, key, x).Returns? ==> FirstKeyMatch(s + [e], key, x).Returns?
    ensures FirstKeyMatch(s, key, x).Returns? && FirstKeyMatch(s, key, x).value.Some? ==>
      FirstKeyMatch(s + [e], key, x) == FirstKeyMatch(s, key, x)
    decreases |s|
  {
    if |s| > 0 {
      assert (s + [e])[0] == s[0];
      assert (s + [e])[1..] == s[1..] + [e];
      AppendKeyed(s[1..], e, key, x);
    }
  }

  /**
   * `access.find(p => p.member.toString() === u.toString())` followed by
   * `!userAccess || userAccess.role !== 'admin'`: whether the caller's first
   * direct entry is an admin entry, or a throw.
   */
  function DirectAdmin(access: seq<AccessEntry>, u: UserId): (r: Eval<bool>)
    ensures r.Throws? <==> FirstKeyMatch(access, EntryMember, u).Throws?
    ensures r.Returns? ==> (r.value <==>
      exists i :: 0 <= i < |access| && access[i].member == Some(u) &&
        (forall j :: 0 <= j < i ==> access[j].member != Some(u)) && access[i].role == Some(Admin))
  {
    match FirstKeyMatch(access, EntryMember, u)
    case Throws => Throws
    case Returns(None) => Returns(false)
    case Returns(Some(i)) => Returns(access[i].role == Some(Admin))
  }

  // ------------------------------------------------------------ guarded scans

  /** The first entry naming u as member; entries without a member are skipped. */
  function FirstDirect(access: seq<AccessEntry>, u: UserId): (r: Option<nat>)
    ensures r.Some? ==> (r.value < |access| && access[r.value].member == Some(u) &&
      forall j :: 0 <= j < r.value ==> access[j].member != Some(u))
    ensures r.None? ==> forall j :: 0 <= j < |access| ==> access[j].member != Some(u)
    decreases |access|
  {
    if |access| == 0 then None
    else if access[0].member == Some(u) then Some(0)
    else
      match FirstDirect(access[1..], u)
      case None => None
      case Some(i) => Some(i + 1)
  }

  predicate TeamGrantFor(e: AccessEntry, teams: seq<TeamId>) {
    e.team.Some? && e.team.value in teams
  }

  /** The first entry granting one of the caller's teams. */
  function FirstTeamGrant(access: seq<AccessEntry>, teams: seq<TeamId>): (r: Option<nat>)
    ensures r.Some? ==> (r.value < |access| && TeamGrantFor(access[r.value], teams) &&
      forall j :: 0 <= j < r.value ==> !TeamGrantFor(access[j], teams))
    ensures r.None? ==> forall j :: 0 <= j < |access| ==> !TeamGrantFor(access[j], teams)
    decreases |access|
  {
    if |access| == 0 then None
    else if TeamGrantFor(access[0], teams) then Some(0)
    else
      match FirstTeamGrant(access[1..], teams)
      case None => None
      case Some(i) => Some(i + 1)
  }

  /** The read check of getFileById: some entry names the caller or one of the caller's teams. */
  predicate HasAccess(access: seq<AccessEntry>, u: UserId, teams: seq<TeamId>) {
    exists i :: 0 <= i < |access| && (access[i].member == Some(u) || TeamGrantFor(access[i], teams))
  }

  /** The `userRole` reported by getFileById: the role of the first direct entry, else null. */
  function DirectRole(access: seq<AccessEntry>, u: UserId): (r: Option<FileRole>)
    ensures
      (exists i :: 0 <= i < |access| && access[i].member == Some(u) &&
                   (forall j :: 0 <= j < i ==> access[j].member != Some(u)) && r == access[i].role) ||
      ((forall i :: 0 <= i < |access| ==> access[i].member != Some(u)) && r.None?)
  {
    match FirstDirect(access, u)
    case None => None
    case Some(i) => access[i].role
  }

  /** Read access with no direct entry can only come from a team grant. */
  lemma ReadOnlyViaTeam(access: seq<AccessEntry>, u: UserId, teams: seq<TeamId>)
    requires HasAccess(access, u, teams) && FirstDirect(access, u).None?
    ensures FirstTeamGrant(access, teams).Some?
    ensures DirectRole(access, u).None?
  {
  }

  predicate CanEdit(role: Option<FileRole>) {
    role == Some(Admin) || role == Some(Editor)
  }

  /**
   * The write check of updateFile: the first direct entry is admin or
   * editor, or else the first entry for one of the caller's teams is.
   */
  predicate MayUpdate(access: seq<AccessEntry>, u: UserId, teams: seq<TeamId>) {
    (FirstDirect(access, u).Some? && CanEdit(access[FirstDirect(access, u).value].role)) ||
    (FirstTeamGrant(access, teams).Some? && CanEdit(access[FirstTeamGrant(access, teams).value].role))
  }

  /** Whoever may update a file may also read it. */
  lemma UpdateImpliesRead(access: seq<AccessEntry>, u: UserId, teams: seq<TeamId>)
    requires MayUpdate(access, u, teams)
    ensures HasAccess(access, u, teams)
  {
    if FirstDirect(access, u).Some? && CanEdit(access[FirstDirect(access, u).value].role) {
      var i := FirstDirect(access, u).value;
      assert access[i].member == Some(u);
    } else {
      var i := FirstTeamGrant(access, teams).value;
      assert TeamGrantFor(access[i], teams);
    }
  }

  // ------------------------------------------------------------ populate

  /** A populated reference: null when the document it names is no longer stored. */
  function Live(ref: Option<nat>, stored: set<nat>): (r: Option<nat>)
    ensures r.Some? <==> ref.Some? && ref.value in stored
    ensures r.Some? ==> r == ref
  {
    if ref.Some? && ref.value in stored then ref else None
  }

  /**
   * `.populate('access.member').populate('access.team')`: every entry keeps
   * its id and role, and a member or team that is no longer stored comes
   * back null.
   */
  function Populated(access: seq<AccessEntry>, users: set<UserId>, teams: set<TeamId>): (r: seq<AccessEntry>)
    ensures |r| == |access|
    ensures forall i :: 0 <= i < |access| ==>
      r[i].id == access[i].id && r[i].role == access[i].role &&
      r[i].member == Live(access[i].member, users) && r[i].team == Live(access[i].team, teams)
  {
    seq(|access|, i requires 0 <= i < |access| =>
      access[i].(member := Live(access[i].member, users), team := Live(access[i].team, teams)))
  }

  /** A list whose every reference is still stored comes back from populate unchanged. */
  lemma PopulatedLive(access: seq<AccessEntry>, users: set<UserId>, teams: set<TeamId>)
    requires forall i :: 0 <= i < |access| && access[i].member.Some? ==> access[i].member.value in users
    requires forall i :: 0 <= i < |access| && access[i].team.Some? ==> access[i].team.value in teams
    ensures Populated(access, users, teams) == access
  {
    var r := Populated(access, users, teams);
    forall i | 0 <= i < |access| ensures r[i] == access[i] {
      assert r[i].member == access[i].member && r[i].team == access[i].team;
    }
  }

  /**
   * The update check reads the stored list and the read check the
   * populated one. When the caller is stored and every team the list names
   * is stored, whoever may update may also read.
   */
  lemma UpdateImpliesReadWhenStored(access: seq<AccessEntry>, u: UserId, teams: seq<TeamId>,
                                    users: set<UserId>, stored: set<TeamId>)
    requires MayUpdate(access, u, teams) && u in users
    requires forall i :: 0 <= i < |access| && access[i].team.Some? ==> access[i].team.value in stored
    ensures HasAccess(Populated(access, users, stored), u, teams)
  {
    var p := Populated(access, users, stored);
    UpdateImpliesRead(access, u, teams);
    var i :| 0 <= i < |access| && (access[i].member == Some(u) || TeamGrantFor(access[i], teams));
    assert p[i].member == Some(u) || TeamGrantFor(p[i], teams);
  }

  /**
   * Once the granting team is deleted, an editor grant for it still passes
   * the update check but no longer passes the read check.
   */
  lemma UpdateWithoutReadAfterTeamDeleted(u: UserId, t: TeamId, users: set<UserId>)
    ensures var access := [AccessEntry(0, None, Some(t), Some(Editor))];
      MayUpdate(access, u, [t]) && !HasAccess(Populated(access, users, {}), u, [t])
  {
    var access := [AccessEntry(0, None, Some(t), Some(Editor))];
    assert TeamGrantFor(access[0], [t]);
    assert FirstTeamGrant(access, [t]) == Some(0);
    var p := Populated(access, users, {});
    assert p[0].member.None? && p[0].team.None?;
  }

  /**
   * Only the first direct entry counts: a later editor entry for the same
   * member does not grant update when the first one is a viewer entry.
   */
  lemma FirstDirectEntryDecides(u: UserId)
    ensures !MayUpdate([AccessEntry(0, Some(u), None, Some(Viewer)),
                        AccessEntry(1, Some(u), None, Some(Editor))], u, [])
  {
    var access := [AccessEntry(0, Some(u), None, Some(Viewer)), AccessEntry(1, Some(u), None, Some(Editor))];
    assert FirstDirect(access, u) == Some(0);
    assert FirstTeamGrant(access, []) == None;
  }

  /** An unguarded scan that returns agrees with the guarded one. */
  lemma {:induction false} UnguardedAgrees(access: seq<AccessEntry>, u: UserId)
    requires FirstKeyMatch(access, EntryMember, u).Returns?
    ensures FirstKeyMatch(access, EntryMember, u).value == FirstDirect(access, u)
    decreases |access|
  {
    if |access| > 0 && access[0].member != Some(u) {
      UnguardedAgrees(access[1..], u);
    }
  }

  /** `access.findIndex(p => p._id.toString() === accessId)`. */
  function IndexOfId(access: seq<AccessEntry>, aid: AccessId): (r: Option<nat>)
    ensures r.Some? ==> (r.value < |access| && access[r.value].id == aid &&
      forall j :: 0 <= j < r.value ==> access[j].id != aid)
    ensures r.None? ==> forall j :: 0 <= j < |access| ==> access[j].id != aid
    decreases |access|
  {
    if |access| == 0 then None
    else if access[0].id == aid then Some(0)
    else
      match IndexOfId(access[1..], aid)
      case None => None
      case Some(i) => Some(i + 1)
  }

  /** The entries naming the owner as member. */
  function OwnerEntries(access: seq<AccessEntry>, owner: UserId): seq<AccessEntry> {
    Filter(access, (e: AccessEntry) => e.member == Some(owner))
  }

  /**
   * Removing one entry that does not name the owner keeps every owner entry,
   * in order; so no run of such removals can take the owner's entry away.
   */
  lemma RemovalKeepsOwnerEntries(access: seq<AccessEntry>, i: nat, owner: UserId)
    requires i < |access| && access[i].member != Some(owner)
    ensures OwnerEntries(RemoveAt(access, i), owner) == OwnerEntries(access, owner)
  {
    RemoveAtRejected(access, i, (e: AccessEntry) => e.member == Some(owner));
  }

  // ------------------------------------------------------- team grant expansion

  function MemberGrant(u: UserId, role: FileRole, id: AccessId): AccessEntry {
    AccessEntry(id, Some(u), None, Some(role))
  }

  /**
   * The `team.members.forEach` loop of addUserOrTeamToAccess: for each
   * member id in order, an unguarded scan of the list built so far; a new
   * member entry (with the next fresh id) is pushed when none is found.
   */
  function ExpandGrant(acc: seq<AccessEntry>, ids: seq<UserId>, role: FileRole, next: nat): Eval<seq<AccessEntry>>
    decreases |ids|
  {
    if ids == [] then Returns(acc)
    else
      match FirstKeyMatch(acc, EntryMember, ids[0])
      case Throws => Throws
      case Returns(Some(_)) => ExpandGrant(acc, ids[1..], role, next)
      case Returns(None) => ExpandGrant(acc + [MemberGrant(ids[0], role, next)], ids[1..], role, next + 1)
  }

  /**
   * A successful expansion keeps the list as it was and appends member
   * entries only: each with the requested role, for one of the ids, for a
   * member that no earlier entry names; and afterwards every id has an entry.
   */
  lemma {:induction false} ExpandShape(acc: seq<AccessEntry>, ids: seq<UserId>, role: FileRole, next: nat)
    requires ExpandGrant(acc, ids, role, next).Returns?
    ensures var r := ExpandGrant(acc, ids, role, next).value;
      |acc| <= |r| && r[..|acc|] == acc &&
      (forall k :: |acc| <= k < |r| ==>
        r[k].member.Some? && r[k] == MemberGrant(r[k].member.value, role, next + (k - |acc|)) &&
        r[k].member.value in ids &&
        forall j :: 0 <= j < k ==> r[j].member != r[k].member) &&
      (forall m :: m in ids ==> exists k :: 0 <= k < |r| && r[k].member == Some(m))
    decreases |ids|
  {
    var r := ExpandGrant(acc, ids, role, next).value;
    if ids != [] {
      var m := ids[0];
      match FirstKeyMatch(acc, EntryMember, m)
      case Returns(Some(i)) =>
        ExpandShape(acc, ids[1..], role, next);
        assert r[i] == acc[i];
        forall m' | m' in ids ensures exists k :: 0 <= k < |r| && r[k].member == Some(m') {
          if m' != m { assert m' in ids[1..]; }
        }
      case Returns(None) =>
        var acc' := acc + [MemberGrant(m, role, next)];
        ExpandShape(acc', ids[1..], role, next + 1);
        assert r[..|acc'|] == acc';
        assert r[..|acc|] == acc by {
          assert r[..|acc|] == acc'[..|acc|];
        }
        assert r[|acc|] == acc'[|acc|];
        forall k | |acc| <= k < |r|
          ensures r[k].member.Some? && r[k] == MemberGrant(r[k].member.value, role, next + (k - |acc|))
          ensures r[k].member.value in ids
          ensures forall j :: 0 <= j < k ==> r[j].member != r[k].member
        {
          if k == |acc| {
            forall j | 0 <= j < k ensures r[j].member != r[k].member {
              assert r[j] == acc[j];
              assert Passes(EntryMember(acc[j]), m);
            }
          }
        }
        forall m' | m' in ids ensures exists k :: 0 <= k < |r| && r[k].member == Some(m') {
          if m' != m { assert m' in ids[1..]; }
        }
    }
  }

  /** The expansion throws exactly when one id's scan of the original list throws. */
  lemma {:induction false} ExpandThrows(acc: seq<AccessEntry>, ids: seq<UserId>, role: FileRole, next: nat)
    ensures ExpandGrant(acc, ids, role, next).Throws? <==>
      exists k :: 0 <= k < |ids| && FirstKeyMatch(acc, EntryMember, ids[k]).Throws?
    decreases |ids|
  {
    if ids != [] {
      var m := ids[0];
      match FirstKeyMatch(acc, EntryMember, m)
      case Throws =>
      case Returns(Some(_)) =>
        ExpandThrows(acc, ids[1..], role, next);
        ThrowsOnTail(acc, ids);
      case Returns(None) =>
        var acc' := acc + [MemberGrant(m, role, next)];
        ExpandThrows(acc', ids[1..], role, next + 1);
        ThrowsOnTail(acc, ids);
        forall k | 0 <= k < |ids| - 1
          ensures FirstKeyMatch(acc', EntryMember, ids[1..][k]).Throws? <==>
                  FirstKeyMatch(acc, EntryMember, ids[1..][k]).Throws?
        {
          AppendKeyed(acc, MemberGrant(m, role, next), EntryMember, ids[1..][k]);
        }
    }
  }

  lemma ThrowsOnTail(acc: seq<AccessEntry>, ids: seq<UserId>)
    requires ids != [] && !FirstKeyMatch(acc, EntryMember, ids[0]).Throws?
    ensures (exists k :: 0 <= k < |ids| && FirstKeyMatch(acc, EntryMember, ids[k]).Throws?) <==>
      (exists k :: 0 <= k < |ids| - 1 && FirstKeyMatch(acc, EntryMember, ids[1..][k]).Throws?)
  {
    if exists k :: 0 <= k < |ids| && FirstKeyMatch(acc, EntryMember, ids[k]).Throws? {
      var k :| 0 <= k < |ids| && FirstKeyMatch(acc, EntryMember, ids[k]).Throws?;
      assert k > 0 && ids[1..][k - 1] == ids[k];
    }
  }

  /**
   * The loop that runs the expansion in place of the `forEach`: it stops at
   * the first throw, and otherwise returns the grown list and the next
   * unused id.
   */
  method GrantToMembers(access: seq<AccessEntry>, ids: seq<UserId>, role: FileRole, next: nat)
    returns (r: Eval<seq<AccessEntry>>, next': nat)
    ensures r == ExpandGrant(access, ids, role, next)
    ensures r.Returns? ==> |access| <= |r.value| && next' == next + (|r.value| - |access|)
  {
    var acc := access;
    var n := next;
    var i := 0;
    while i < |ids|
      invariant 0 <= i <= |ids|
      invariant ExpandGrant(access, ids, role, next) == ExpandGrant(acc, ids[i..], role, n)
      invariant |access| <= |acc| && n == next + (|acc| - |access|)
    {
      assert ids[i..][0] == ids[i] && ids[i..][1..] == ids[i + 1..];
      match FirstKeyMatch(acc, EntryMember, ids[i]) {
        case Throws =>
          return Throws, n;
        case Returns(Some(_)) =>
        case Returns(None) =>
          acc := acc + [MemberGrant(ids[i], role, n)];
          n := n + 1;
      }
      i := i + 1;
    }
    assert ids[i..] == [];
    r, next' := Returns(acc), n;
  }
}
