/** The backend's tables and the checks every handler shares: who is a member
    of a workspace and with which role. */
module Database {
  import opened Types

  datatype User = User(name: string, tokenIdentifier: string)

  /** A row of the members table: `userId` belongs to `workspaceId` with `role`. */
  datatype Membership = Membership(userId: UserId, workspaceId: WorkspaceId, role: WorkspaceRole)

  /** A row of the workspaces table; `ownerId` is the user who created it. */
  datatype Workspace = Workspace(name: string, ownerId: UserId, thumbnail: Option<StorageId>, inviteCode: Option<string>)

  datatype Project = Project(name: string, thumbnail: Option<StorageId>, workspaceId: WorkspaceId)

  /** The errors the handlers throw. A throwing mutation writes nothing. */
  datatype Error =
    | Unauthorized
    | TaskDoesNotExist         // tasks.edit
    | NoTaskFound              // tasks.getById
    | AlreadyNotAMember        // members.remove, members.changeRole
    | CannotDeleteLastMember   // members.remove
    | WorkspaceNameNotUnique   // workspaces.create
    | NoWorkspaceExists        // workspaces.getWorkplaceById
    | InvalidInviteCode        // workspaces.joinWorkspaceByInviteCode
    | ProjectNotFound          // projects.get, projects.updateById
    | NonexistentDocument      // the database refuses to patch or delete a missing document

  type Outcome<T> = Result<T, Error>

  /** `userId` holds a membership of `workspaceId`. */
  predicate HasMembership(members: map<MemberId, Membership>, userId: UserId, workspaceId: WorkspaceId)
  {
    exists k | k in members :: members[k].userId == userId && members[k].workspaceId == workspaceId
  }

  /** `userId` holds an Admin membership of `workspaceId`. */
  predicate HasAdminMembership(members: map<MemberId, Membership>, userId: UserId, workspaceId: WorkspaceId)
  {
    exists k | k in members ::
      members[k].userId == userId && members[k].workspaceId == workspaceId && members[k].role == Admin
  }

  /** A user holds at most one membership per workspace. */
  ghost predicate UniqueMemberships(members: map<MemberId, Membership>)
  {
    forall a, b | a in members && b in members
      && members[a].userId == members[b].userId && members[a].workspaceId == members[b].workspaceId :: a == b
  }

  /** Adding a membership for a (user, workspace) pair that has none keeps
      memberships unique and makes the user a member. */
  lemma InsertFreshMembership(members: map<MemberId, Membership>, m: MemberId, membership: Membership)
    requires UniqueMemberships(members) && m !in members
    requires !HasMembership(members, membership.userId, membership.workspaceId)
    ensures UniqueMemberships(members[m := membership])
    ensures HasMembership(members[m := membership], membership.userId, membership.workspaceId)
    ensures membership.role == Admin ==>
              HasAdminMembership(members[m := membership], membership.userId, membership.workspaceId)
  {
    var after := members[m := membership];
    assert after[m] == membership;
    assert forall k | k in members :: !(members[k].userId == membership.userId && members[k].workspaceId == membership.workspaceId);
  }

  /** The database. Ids are handed out from one counter, so an inserted row never
      reuses an id that any table has held. */
  class Db {
    var users: map<UserId, User>
    var members: map<MemberId, Membership>
    var workspaces: map<WorkspaceId, Workspace>
    var projects: map<ProjectId, Project>
    var tasks: map<TaskId, Task>
    var nextId: nat

    /** An empty database: no rows, and the counter at its start. */
    constructor()
      ensures Valid()
      ensures users == map[] && members == map[] && workspaces == map[] && projects == map[] && tasks == map[]
      ensures nextId == 0
    {
      users, members, workspaces, projects, tasks := map[], map[], map[], map[], map[];
      nextId := 0;
    }

    ghost predicate Valid()
      reads this
    {
      && (forall k | k in users :: k < nextId)
      && (forall k | k in members :: k < nextId && members[k].workspaceId < nextId)
      && (forall k | k in workspaces :: k < nextId)
      && (forall k | k in projects :: k < nextId)
      && (forall k | k in tasks :: k < nextId && tasks[k].id == k)
      && MembershipsUnique()
      && InviteCodesUnique()
    }

    ghost predicate MembershipsUnique()
      reads this
    {
      UniqueMemberships(members)
    }

    /** No two workspaces share an invite code. */
    ghost predicate InviteCodesUnique()
      reads this
    {
      forall a, b | a in workspaces && b in workspaces
        && workspaces[a].inviteCode.Some? && workspaces[a].inviteCode == workspaces[b].inviteCode :: a == b
    }

    /** No two workspaces share a name. */
    ghost predicate WorkspaceNamesUnique()
      reads this
    {
      forall a, b | a in workspaces && b in workspaces && workspaces[a].name == workspaces[b].name :: a == b
    }

    predicate IsMember(userId: UserId, workspaceId: WorkspaceId)
      reads this
    {
      HasMembership(members, userId, workspaceId)
    }

    predicate IsAdmin(userId: UserId, workspaceId: WorkspaceId)
      reads this
    {
      HasAdminMembership(members, userId, workspaceId)
    }

    /** The memberships of one workspace. */
    function WorkspaceMembers(workspaceId: WorkspaceId): set<MemberId>
      reads this
    {
      set k | k in members && members[k].workspaceId == workspaceId
    }

    /** Every invite code some workspace holds. */
    function InviteCodes(): set<string>
      reads this
    {
      set k | k in workspaces && workspaces[k].inviteCode.Some? :: workspaces[k].inviteCode.value
    }

    /** The membership lookup the handlers start with: the caller's row for the
        workspace, if there is one. With memberships unique, its role decides
        whether the caller is an Admin. */
    method FindMembership(userId: UserId, workspaceId: WorkspaceId) returns (m: Option<MemberId>)
      requires Valid()
      ensures m.None? <==> !IsMember(userId, workspaceId)
      ensures m.Some? ==> m.value in members
                          && members[m.value].userId == userId && members[m.value].workspaceId == workspaceId
      ensures m.Some? ==> (members[m.value].role == Admin <==> IsAdmin(userId, workspaceId))
    {
      var found := set k | k in members && members[k].userId == userId && members[k].workspaceId == workspaceId;
      assert forall k | k in members && members[k].userId == userId && members[k].workspaceId == workspaceId :: k in found;
      if found == {} {
        return None;
      }
      var k :| k in found;
      return Some(k);
    }
  }
}
