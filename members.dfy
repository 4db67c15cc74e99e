/** The membership handlers: listing a workspace's users, removing a member and
    changing a member's role. */
module Members {
  import opened Types
  import opened Database

  /** `listWorkspaceMembers`: a member of the workspace sees the user row of
      every member of it; memberships whose user row is gone are dropped. */
  method ListWorkspaceMembers(db: Db, caller: Option<UserId>, workspaceId: WorkspaceId)
    returns (r: Outcome<map<UserId, User>>)
    requires db.Valid()
    ensures r.Err? <==> caller.None? || !db.IsMember(caller.value, workspaceId)
    ensures r.Err? ==> r.error == Unauthorized
    ensures r.Ok? ==> forall u :: u in r.value <==> u in db.users && db.IsMember(u, workspaceId)
    ensures r.Ok? ==> forall u | u in r.value :: r.value[u] == db.users[u]
  {
    if caller.None? {
      return Err(Unauthorized);
    }
    var existingMembership := db.FindMembership(caller.value, workspaceId);
    if existingMembership.None? {
      return Err(Unauthorized);
    }
    var members := db.WorkspaceMembers(workspaceId);
    var userIds := set k | k in members :: db.members[k].userId;
    forall u | db.IsMember(u, workspaceId) ensures u in userIds {
      var k :| k in db.members && db.members[k].userId == u && db.members[k].workspaceId == workspaceId;
      assert k in members;
    }
    var users := map u | u in userIds && u in db.users :: db.users[u];
    return Ok(users);
  }

  /** The caller of a successful listing appears in it, as long as the caller's
      own user row exists. */
  lemma CallerIsListed(db: Db, caller: UserId, workspaceId: WorkspaceId, listed: map<UserId, User>)
    requires caller in db.users && db.IsMember(caller, workspaceId)
    requires forall u :: u in listed <==> u in db.users && db.IsMember(u, workspaceId)
    ensures caller in listed
  {
  }

  /** The memberships left when every membership of `userId` in `workspaceId`
      is dropped. */
  ghost predicate DropsOnlyMembership(before: map<MemberId, Membership>, after: map<MemberId, Membership>,
                                      userId: UserId, workspaceId: WorkspaceId)
  {
    && (forall k :: k in after <==>
          k in before && !(before[k].userId == userId && before[k].workspaceId == workspaceId))
    && (forall k | k in after :: after[k] == before[k])
  }

  /** `remove`: an Admin of the workspace removes the membership of `memberId`.
      Removing a user who is not a member, or the workspace's only member, is
      an error; so a workspace never loses its last member this way. */
  method Remove(db: Db, caller: Option<UserId>, memberId: UserId, workspaceId: WorkspaceId)
    returns (r: Outcome<()>)
    requires db.Valid()
    modifies db`members
    ensures db.Valid()
    ensures r == Err(Unauthorized) <==> caller.None? || !old(db.IsAdmin(caller.value, workspaceId))
    ensures r == Err(AlreadyNotAMember) <==>
              caller.Some? && old(db.IsAdmin(caller.value, workspaceId)) && !old(db.IsMember(memberId, workspaceId))
    ensures r == Err(CannotDeleteLastMember) <==>
              caller.Some? && old(db.IsAdmin(caller.value, workspaceId)) && old(db.IsMember(memberId, workspaceId))
              && |old(db.WorkspaceMembers(workspaceId))| == 1
    ensures r.Ok? <==>
              caller.Some? && old(db.IsAdmin(caller.value, workspaceId)) && old(db.IsMember(memberId, workspaceId))
              && |old(db.WorkspaceMembers(workspaceId))| != 1
    ensures r.Err? ==> db.members == old(db.members)
    ensures r.Ok? ==> DropsOnlyMembership(old(db.members), db.members, memberId, workspaceId)
    ensures r.Ok? ==> !db.IsMember(memberId, workspaceId) && db.WorkspaceMembers(workspaceId) != {}
  {
    if caller.None? {
      return Err(Unauthorized);
    }
    var existingMembership := db.FindMembership(caller.value, workspaceId);
    if existingMembership.None? || db.members[existingMembership.value].role != Admin {
      return Err(Unauthorized);
    }
    var membership := db.FindMembership(memberId, workspaceId);
    if membership.None? {
      return Err(AlreadyNotAMember);
    }
    var members := db.WorkspaceMembers(workspaceId);
    if |members| == 1 {
      return Err(CannotDeleteLastMember);
    }
    var m := membership.value;
    ghost var others := members - {m};
    assert members == others + {m};
    assert |others| >= 1;
    ghost var o :| o in others;
    db.members := db.members - {m};
    assert o in db.WorkspaceMembers(workspaceId);
    return Ok(());
  }

  /** Rewriting the role of membership `m` keeps memberships unique, touches no
      other membership, and makes its user an Admin exactly when the new role
      is Admin. */
  lemma SetRoleEffect(members: map<MemberId, Membership>, m: MemberId, role: WorkspaceRole)
    requires m in members && UniqueMemberships(members)
    ensures var after := members[m := members[m].(role := role)];
            && UniqueMemberships(after)
            && after.Keys == members.Keys
            && (forall k | k in after ::
                  after[k] == if members[k].userId == members[m].userId && members[k].workspaceId == members[m].workspaceId
                              then members[k].(role := role) else members[k])
            && HasMembership(after, members[m].userId, members[m].workspaceId)
            && (HasAdminMembership(after, members[m].userId, members[m].workspaceId) <==> role == Admin)
  {
    var after := members[m := members[m].(role := role)];
    assert after[m].userId == members[m].userId && after[m].workspaceId == members[m].workspaceId;
  }

  /** `changeRole`: an Admin of the workspace sets the role of `memberId`'s
      membership; a user who is not a member is an error. */
  method ChangeRole(db: Db, caller: Option<UserId>, memberId: UserId, workspaceId: WorkspaceId, role: WorkspaceRole)
    returns (r: Outcome<()>)
    requires db.Valid()
    modifies db`members
    ensures db.Valid()
    ensures r == Err(Unauthorized) <==> caller.None? || !old(db.IsAdmin(caller.value, workspaceId))
    ensures r == Err(AlreadyNotAMember) <==>
              caller.Some? && old(db.IsAdmin(caller.value, workspaceId)) && !old(db.IsMember(memberId, workspaceId))
    ensures r.Ok? <==>
              caller.Some? && old(db.IsAdmin(caller.value, workspaceId)) && old(db.IsMember(memberId, workspaceId))
    ensures r.Err? ==> db.members == old(db.members)
    ensures r.Ok? ==> db.members.Keys == old(db.members).Keys
    ensures r.Ok? ==> forall k | k in db.members ::
              db.members[k] == if old(db.members)[k].userId == memberId && old(db.members)[k].workspaceId == workspaceId
                               then old(db.members)[k].(role := role) else old(db.members)[k]
    ensures r.Ok? ==> db.IsMember(memberId, workspaceId) && (db.IsAdmin(memberId, workspaceId) <==> role == Admin)
  {
    if caller.None? {
      return Err(Unauthorized);
    }
    var existingMembership := db.FindMembership(caller.value, workspaceId);
    if existingMembership.None? || db.members[existingMembership.value].role != Admin {
      return Err(Unauthorized);
    }
    var membership := db.FindMembership(memberId, workspaceId);
    if membership.None? {
      return Err(AlreadyNotAMember);
    }
    var m := membership.value;
    SetRoleEffect(db.members, m, role);
    db.members := db.members[m := db.members[m].(role := role)];
    return Ok(());
  }

  /** Neither `remove` nor `changeRole` keeps an Admin in the workspace: an
      Admin may demote or remove themselves, and when theirs was the only Admin
      membership the workspace has no Admin left. */
  lemma LastAdminCanBeDemoted(members: map<MemberId, Membership>, m: MemberId)
    requires m in members && members[m].role == Admin
    requires forall k | k in members && members[k].workspaceId == members[m].workspaceId && members[k].role == Admin :: k == m
    ensures var after := members[m := members[m].(role := Member)];
            forall u :: !HasAdminMembership(after, u, members[m].workspaceId)
  {
  }

  lemma LastAdminCanBeRemoved(members: map<MemberId, Membership>, m: MemberId)
    requires m in members && members[m].role == Admin
    requires forall k | k in members && members[k].workspaceId == members[m].workspaceId && members[k].role == Admin :: k == m
    ensures forall u :: !HasAdminMembership(members - {m}, u, members[m].workspaceId)
  {
  }
}
