/** The workspace handlers: listing, creating, reading, renaming and deleting
    workspaces, and the invite codes through which users join them. */
module Workspaces {
  import opened Types
  import opened Database

  /** `list`: the workspaces the caller created. Memberships play no part: a
      workspace the caller only joined is not listed. */
  method List(db: Db, caller: Option<UserId>) returns (r: Outcome<map<WorkspaceId, Workspace>>)
    ensures r.Err? <==> caller.None?
    ensures r.Err? ==> r.error == Unauthorized
    ensures r.Ok? ==> forall w :: w in r.value <==> w in db.workspaces && db.workspaces[w].ownerId == caller.value
    ensures r.Ok? ==> forall w | w in r.value :: r.value[w] == db.workspaces[w]
  {
    if caller.None? {
      return Err(Unauthorized);
    }
    var workspaces := map w | w in db.workspaces && db.workspaces[w].ownerId == caller.value :: db.workspaces[w];
    return Ok(workspaces);
  }

  /** Some workspace already carries `name` (the `by_name` lookup). */
  predicate NameTaken(workspaces: map<WorkspaceId, Workspace>, name: string)
  {
    exists w | w in workspaces :: workspaces[w].name == name
  }

  /** `create`: a new workspace owned by the caller, with the caller as its
      Admin and only member. A name some workspace already has is refused, so
      `create` keeps workspace names unique. */
  method Create(db: Db, caller: Option<UserId>, name: string, thumbnail: Option<StorageId>)
    returns (r: Outcome<WorkspaceId>)
    requires db.Valid()
    modifies db`workspaces, db`members, db`nextId
    ensures db.Valid()
    ensures caller.None? ==> r == Err(Unauthorized)
    ensures caller.Some? ==> (r == Err(WorkspaceNameNotUnique) <==> NameTaken(old(db.workspaces), name))
    ensures r.Ok? <==> caller.Some? && !NameTaken(old(db.workspaces), name)
    ensures r.Err? ==> db.workspaces == old(db.workspaces) && db.members == old(db.members)
    ensures r.Ok? ==>
              && caller.Some?
              && r.value !in old(db.workspaces)
              && db.workspaces == old(db.workspaces)[r.value := Workspace(name, caller.value, thumbnail, None)]
              && (exists m: MemberId :: m !in old(db.members) && db.members == old(db.members)[m := Membership(caller.value, r.value, Admin)])
              && db.IsAdmin(caller.value, r.value)
    ensures old(db.WorkspaceNamesUnique()) ==> db.WorkspaceNamesUnique()
  {
    if caller.None? {
      return Err(Unauthorized);
    }
    if NameTaken(db.workspaces, name) {
      return Err(WorkspaceNameNotUnique);
    }
    var workspaceId := db.nextId;
    db.workspaces := db.workspaces[workspaceId := Workspace(name, caller.value, thumbnail, None)];
    var memberId := db.nextId + 1;
    var membership := Membership(caller.value, workspaceId, Admin);
    InsertFreshMembership(db.members, memberId, membership);
    db.members := db.members[memberId := membership];
    db.nextId := db.nextId + 2;
    return Ok(workspaceId);
  }

  /** `getWorkplaceById`: a member of the workspace reads it. */
  method GetWorkplaceById(db: Db, caller: Option<UserId>, id: WorkspaceId) returns (r: Outcome<Workspace>)
    requires db.Valid()
    ensures caller.None? || !db.IsMember(caller.value, id) ==> r == Err(Unauthorized)
    ensures caller.Some? && db.IsMember(caller.value, id) ==>
              r == if id in db.workspaces then Ok(db.workspaces[id]) else Err(NoWorkspaceExists)
  {
    if caller.None? || !db.IsMember(caller.value, id) {
      return Err(Unauthorized);
    }
    if id !in db.workspaces {
      return Err(NoWorkspaceExists);
    }
    return Ok(db.workspaces[id]);
  }

  /** `updateById`: any member of the workspace may set its name and thumbnail.
      The new name is not checked against the other workspaces' names. */
  method UpdateById(db: Db, caller: Option<UserId>, id: WorkspaceId, name: Option<string>, thumbnail: Option<StorageId>)
    returns (r: Outcome<()>)
    requires db.Valid()
    modifies db`workspaces
    ensures db.Valid()
    ensures caller.None? || !db.IsMember(caller.value, id) ==> r == Err(Unauthorized)
    ensures caller.Some? && db.IsMember(caller.value, id) && id !in old(db.workspaces) ==> r == Err(NonexistentDocument)
    ensures r.Ok? <==> caller.Some? && db.IsMember(caller.value, id) && id in old(db.workspaces)
    ensures r.Err? ==> db.workspaces == old(db.workspaces)
    ensures r.Ok? ==>
              && id in old(db.workspaces)
              && var w := old(db.workspaces)[id];
                 db.workspaces == old(db.workspaces)[id := w.(name := if name.Some? then name.value else w.name,
                                                               thumbnail := if thumbnail.Some? then thumbnail else w.thumbnail)]
  {
    if caller.None? || !db.IsMember(caller.value, id) {
      return Err(Unauthorized);
    }
    if id !in db.workspaces {
      return Err(NonexistentDocument);
    }
    var w := db.workspaces[id];
    db.workspaces := db.workspaces[id := w.(name := if name.Some? then name.value else w.name,
                                            thumbnail := if thumbnail.Some? then thumbnail else w.thumbnail)];
    return Ok(());
  }

  /** `remove`: only an Admin of the workspace may delete it. Its memberships,
      projects and tasks are left in place. */
  method Remove(db: Db, caller: Option<UserId>, id: WorkspaceId) returns (r: Outcome<()>)
    requires db.Valid()
    modifies db`workspaces
    ensures db.Valid()
    ensures r == Err(Unauthorized) <==> caller.None? || !db.IsAdmin(caller.value, id)
    ensures r == Err(NonexistentDocument) <==> caller.Some? && db.IsAdmin(caller.value, id) && id !in old(db.workspaces)
    ensures r.Ok? <==> caller.Some? && db.IsAdmin(caller.value, id) && id in old(db.workspaces)
    ensures r.Err? ==> db.workspaces == old(db.workspaces)
    ensures r.Ok? ==> id in old(db.workspaces) && db.workspaces == old(db.workspaces) - {id}
  {
    if caller.None? {
      return Err(Unauthorized);
    }
    var currentMembership := db.FindMembership(caller.value, id);
    if currentMembership.None? {
      return Err(Unauthorized);
    }
    if db.members[currentMembership.value].role != Admin {
      return Err(Unauthorized);
    }
    if id !in db.workspaces {
      return Err(NonexistentDocument);
    }
    db.workspaces := db.workspaces - {id};
    return Ok(());
  }

  // ---------------------------------------------------------------------------
  // Invite codes

  /** Some workspace holds `code` (the `by_inviteCode` lookup). */
  predicate CodeInUse(workspaces: map<WorkspaceId, Workspace>, code: string)
  {
    exists w | w in workspaces :: workspaces[w].inviteCode == Some(code)
  }

  /** The `while (!isUnique)` loop of `generateWorkspaceInviteCode`: draw codes
      from the generator until one is held by no workspace. The generator's
      draws are `candidates`, at least one of which is fresh. */
  method ChooseInviteCode(db: Db, candidates: seq<string>) returns (inviteCode: string)
    requires exists i | 0 <= i < |candidates| :: !CodeInUse(db.workspaces, candidates[i])
    ensures !CodeInUse(db.workspaces, inviteCode)
    ensures exists i | 0 <= i < |candidates| ::
              inviteCode == candidates[i] && forall j | 0 <= j < i :: CodeInUse(db.workspaces, candidates[j])
  {
    inviteCode := "";
    var isUnique := false;
    var i := 0;
    while !isUnique
      invariant 0 <= i <= |candidates|
      invariant !isUnique ==> forall j | 0 <= j < i :: CodeInUse(db.workspaces, candidates[j])
      invariant !isUnique ==> exists j | i <= j < |candidates| :: !CodeInUse(db.workspaces, candidates[j])
      invariant isUnique ==> 0 < i && inviteCode == candidates[i - 1] && !CodeInUse(db.workspaces, inviteCode)
                             && forall j | 0 <= j < i - 1 :: CodeInUse(db.workspaces, candidates[j])
      decreases |candidates| - i, !isUnique
    {
      inviteCode := candidates[i];
      i := i + 1;
      var existingWorkspace := CodeInUse(db.workspaces, inviteCode);
      if !existingWorkspace {
        isUnique := true;
      }
    }
  }

  /** `generateWorkspaceInviteCode`: an Admin of the workspace replaces its
      invite code with one no workspace held. Afterwards exactly this
      workspace holds the code. */
  method GenerateWorkspaceInviteCode(db: Db, caller: Option<UserId>, workspaceId: WorkspaceId, candidates: seq<string>)
    returns (r: Outcome<string>)
    requires db.Valid()
    requires exists i | 0 <= i < |candidates| :: !CodeInUse(db.workspaces, candidates[i])
    modifies db`workspaces
    ensures db.Valid()
    ensures r == Err(Unauthorized) <==> caller.None? || !db.IsAdmin(caller.value, workspaceId)
    ensures r == Err(NonexistentDocument) <==>
              caller.Some? && db.IsAdmin(caller.value, workspaceId) && workspaceId !in old(db.workspaces)
    ensures r.Ok? <==> caller.Some? && db.IsAdmin(caller.value, workspaceId) && workspaceId in old(db.workspaces)
    ensures r.Err? ==> db.workspaces == old(db.workspaces)
    ensures r.Ok? ==>
              && !CodeInUse(old(db.workspaces), r.value)
              && workspaceId in old(db.workspaces)
              && db.workspaces == old(db.workspaces)[workspaceId := old(db.workspaces)[workspaceId].(inviteCode := Some(r.value))]
              && forall w | w in db.workspaces :: db.workspaces[w].inviteCode == Some(r.value) <==> w == workspaceId
  {
    if caller.None? {
      return Err(Unauthorized);
    }
    var currentMembership := db.FindMembership(caller.value, workspaceId);
    if currentMembership.None? || db.members[currentMembership.value].role != Admin {
      return Err(Unauthorized);
    }
    var inviteCode := ChooseInviteCode(db, candidates);
    if workspaceId !in db.workspaces {
      return Err(NonexistentDocument);
    }
    db.workspaces := db.workspaces[workspaceId := db.workspaces[workspaceId].(inviteCode := Some(inviteCode))];
    return Ok(inviteCode);
  }

  /** What `getWorkspaceInviteCode` answers for a workspace: its code, or
      nothing when the workspace or its code is missing, or the code is the
      empty string (which is falsy). */
  function StoredInviteCode(workspaces: map<WorkspaceId, Workspace>, workspaceId: WorkspaceId): (r: Option<string>)
    ensures r.Some? ==> r.value != "" && workspaceId in workspaces && workspaces[workspaceId].inviteCode == r
  {
    if workspaceId in workspaces && workspaces[workspaceId].inviteCode.Some?
       && workspaces[workspaceId].inviteCode.value != ""
    then workspaces[workspaceId].inviteCode
    else None
  }

  /** A non-empty code just stored is the code read back. */
  lemma GeneratedCodeIsReadBack(workspaces: map<WorkspaceId, Workspace>, workspaceId: WorkspaceId, code: string)
    requires workspaceId in workspaces && code != ""
    ensures StoredInviteCode(workspaces[workspaceId := workspaces[workspaceId].(inviteCode := Some(code))], workspaceId)
            == Some(code)
  {
  }

  /** `getWorkspaceInviteCode`: a member of the workspace reads its invite code. */
  method GetWorkspaceInviteCode(db: Db, caller: Option<UserId>, workspaceId: WorkspaceId) returns (r: Outcome<Option<string>>)
    requires db.Valid()
    ensures r.Err? <==> caller.None? || !db.IsMember(caller.value, workspaceId)
    ensures r.Err? ==> r.error == Unauthorized
    ensures r.Ok? ==> r.value == StoredInviteCode(db.workspaces, workspaceId)
  {
    if caller.None? || !db.IsMember(caller.value, workspaceId) {
      return Err(Unauthorized);
    }
    if workspaceId !in db.workspaces {
      return Ok(None);
    }
    var inviteCode := db.workspaces[workspaceId].inviteCode;
    if inviteCode.None? || inviteCode.value == "" {
      return Ok(None);
    }
    return Ok(inviteCode);
  }

  /** `joinWorkspaceByInviteCode`: the caller joins, as a Member, the workspace
      holding `inviteCode`. A caller who already belongs to it is only told its
      id; an unknown code is an error. */
  method JoinWorkspaceByInviteCode(db: Db, caller: Option<UserId>, inviteCode: string) returns (r: Outcome<WorkspaceId>)
    requires db.Valid()
    modifies db`members, db`nextId
    ensures db.Valid()
    ensures caller.None? ==> r == Err(Unauthorized)
    ensures caller.Some? ==> (r == Err(InvalidInviteCode) <==> !CodeInUse(db.workspaces, inviteCode))
    ensures r.Err? <==> caller.None? || !CodeInUse(db.workspaces, inviteCode)
    ensures r.Err? ==> db.members == old(db.members)
    ensures r.Ok? ==>
              && caller.Some?
              && r.value in db.workspaces && db.workspaces[r.value].inviteCode == Some(inviteCode)
              && db.IsMember(caller.value, r.value)
    ensures r.Ok? && old(db.IsMember(caller.value, r.value)) ==> db.members == old(db.members)
    ensures r.Ok? && !old(db.IsMember(caller.value, r.value)) ==>
              exists m: MemberId :: m !in old(db.members) && db.members == old(db.members)[m := Membership(caller.value, r.value, Member)]
  {
    if caller.None? {
      return Err(Unauthorized);
    }
    var holders := set w | w in db.workspaces && db.workspaces[w].inviteCode == Some(inviteCode);
    assert forall w | w in db.workspaces && db.workspaces[w].inviteCode == Some(inviteCode) :: w in holders;
    if holders == {} {
      return Err(InvalidInviteCode);
    }
    var workspaceId :| workspaceId in holders;
    var existingMembership := db.FindMembership(caller.value, workspaceId);
    if existingMembership.Some? {
      return Ok(workspaceId);
    }
    var memberId := db.nextId;
    var membership := Membership(caller.value, workspaceId, Member);
    InsertFreshMembership(db.members, memberId, membership);
    db.members := db.members[memberId := membership];
    db.nextId := db.nextId + 1;
    return Ok(workspaceId);
  }

  /** Joining twice with the same code answers the same workspace both times
      and adds at most one membership. */
  method JoinTwice(db: Db, caller: Option<UserId>, inviteCode: string) returns (first: Outcome<WorkspaceId>, second: Outcome<WorkspaceId>)
    requires db.Valid()
    modifies db`members, db`nextId
    ensures db.Valid()
    ensures second == first
    ensures first.Err? ==> db.members == old(db.members)
    ensures first.Ok? ==> caller.Some? && (db.members == old(db.members)
                          || exists m: MemberId :: m !in old(db.members) && db.members == old(db.members)[m := Membership(caller.value, first.value, Member)])
  {
    first := JoinWorkspaceByInviteCode(db, caller, inviteCode);
    ghost var afterFirst := db.members;
    ghost var workspaces := db.workspaces;
    second := JoinWorkspaceByInviteCode(db, caller, inviteCode);
    assert db.workspaces == workspaces;
    if first.Ok? {
      assert CodeInUse(db.workspaces, inviteCode);
      assert db.InviteCodesUnique();
      assert db.workspaces[second.value].inviteCode == db.workspaces[first.value].inviteCode;
      assert second.value == first.value;
      assert db.members == afterFirst;
    }
  }
}
